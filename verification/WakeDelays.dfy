/** When a session's handler runs again: what every step does to the delays, and what a request or a failed
    handler can rely on over every run. */
module WakeDelays {
  import opened Sequences
  import opened WakeQueue

  // ---------------------------------------------------------------- one step

  function Smaller(a: real, b: real): real {
    if a < b then a else b
  }

  /** The task sleeps for the delay, or is in its handler if there is none. */
  predicate GoesOnAfter(task: Task, delay: real) {
    task.phase == if delay > 0.0 then Sleeping(delay) else InHandler
  }

  /** Nothing but this task, and what its session has asked for, has changed. */
  ghost predicate OnlyTask(w: World, w': World, t: TaskId)
    requires t in w.states
  {
    var k := w.states[t].key;
    && w'.tasks == w.tasks && w'.pending == w.pending - {k}
    && t in w'.states && w'.states == w.states[t := w'.states[t]] && w'.states[t].key == k
    && w'.unserved == if w'.states[t].phase.InHandler? then w.unserved - {k} else w.unserved
  }

  /** A handler's end finishes its task if and only if it asks for nothing and no request came meanwhile.
      Otherwise the task goes on after what the handler asked for, a minute if it raised, or sooner if a
      request asks for that. */
  lemma HandlerEndsExactly(w: World, t: TaskId, result: HandlerResult)
    requires t in w.states
    requires forall k :: k in w.pending ==> w.pending[k] >= 0.0
    ensures var w', k := HandlerEnds(w, t, result), w.states[t].key;
            && OnlyTask(w, w', t)
            && (w'.states[t].phase.Finished? <==> result == Returns(None) && k !in w.pending)
            && w'.ready == (if w'.states[t].phase.Finished? then w.ready + [Cleanup(t)] else w.ready)
            && (result == Returns(None) && k in w.pending ==> GoesOnAfter(w'.states[t], w.pending[k]))
            && (result == Raises ==>
                  GoesOnAfter(w'.states[t], if k in w.pending then Smaller(60.0, w.pending[k]) else 60.0))
            && (result.Returns? && result.next.Some? ==>
                  GoesOnAfter(w'.states[t],
                              if k in w.pending then Smaller(result.next.value, w.pending[k]) else result.next.value))
  {
    var k := w.states[t].key;
    var w' := HandlerEnds(w, t, result);
    assert w'.states == w.states[t := w'.states[t]];
  }

  /** A request is merged into the live task of its session, whose next delay is then at most what was
      asked for; without one it starts a task. A negative delay is none. */
  lemma RequestExactly(w: World, k: Key, delay: real, newTask: TaskId)
    requires k != "" && newTask !in w.states
    ensures var w' := Request(w, k, delay, newTask);
            var asked := if delay > 0.0 then delay else 0.0;
            var live := k in w.tasks && w.tasks[k] in w.states && !w.states[w.tasks[k]].phase.Finished?;
            && w'.unserved == w.unserved + {k}
            && if live then
                 && w'.tasks == w.tasks && w'.states == w.states && w'.ready == w.ready
                 && w'.pending == w.pending[k := if k in w.pending then Smaller(asked, w.pending[k]) else asked]
               else
                 && w'.tasks == w.tasks[k := newTask] && w'.states == w.states[newTask := Task(k, Created(asked))]
                 && w'.ready == w.ready + [First(newTask)] && w'.pending == w.pending
  {
    if k in w.pending {
      assert w.pending[k := w.pending[k]] == w.pending;
    }
  }

  /** A request without a session changes nothing. */
  lemma NoSessionNoRequest(w: World, delay: real, newTask: TaskId)
    ensures Request(w, "", delay, newTask) == w
  {
  }

  /** A task's first step lets it sleep for the delay it was started with, or enters the handler. */
  lemma FirstStepExactly(w: World, t: TaskId)
    requires w.ready != [] && w.ready[0] == First(t) && t in w.states && w.states[t].phase.Created?
    ensures var w' := RunCallback(w);
            && w'.ready == w.ready[1..] && w'.tasks == w.tasks && w'.pending == w.pending
            && t in w'.states && w'.states == w.states[t := w'.states[t]] && w'.states[t].key == w.states[t].key
            && GoesOnAfter(w'.states[t], w.states[t].phase.delay)
  {
  }

  // ---------------------------------------------------------------- delays over every run

  ghost predicate DelaysOk(w: World) {
    && (forall k :: k in w.pending ==> w.pending[k] >= 0.0)
    && (forall t :: t in w.states && w.states[t].phase.Created? ==> w.states[t].phase.delay >= 0.0)
    && (forall t :: t in w.states && w.states[t].phase.Sleeping? ==> w.states[t].phase.delay > 0.0)
  }

  lemma StepKeepsDelays(w: World, step: Step)
    requires DelaysOk(w) && Enabled(w, step)
    ensures DelaysOk(Next(w, step))
  {
  }

  lemma {:induction false} RunKeepsDelays(w: World, steps: seq<Step>)
    requires DelaysOk(w) && Legal(w, steps)
    ensures DelaysOk(Run(w, steps))
    decreases |steps|
  {
    if steps != [] {
      StepKeepsDelays(w, steps[0]);
      RunKeepsDelays(Next(w, steps[0]), steps[1..]);
    }
  }

  /** A handler that raises is called again: after any run its task is alive, and waits a minute at most,
      less only if a request asked for less. */
  lemma RaisedIsRetried(steps: seq<Step>, t: TaskId)
    requires Legal(START, steps) && Enabled(Run(START, steps), Ends(t, Raises))
    ensures var w := Run(START, steps);
            var w', k := Next(w, Ends(t, Raises)), w.states[t].key;
            && t in w'.states && (w'.states[t].phase.InHandler? || w'.states[t].phase.Sleeping?)
            && HasLiveTask(w', k) && w'.tasks[k] == t
            && (w'.states[t].phase.Sleeping? ==> w'.states[t].phase.delay <= 60.0)
            && (k !in w.pending ==> w'.states[t].phase == Sleeping(60.0))
  {
    var w := Run(START, steps);
    RunKeepsDelays(START, steps);
    RunKeepsInv(START, steps);
    HandlerEndsExactly(w, t, Raises);
    assert Alive(w.states, t);
  }

  /** A handler that asks to be called again is, after the time it asked for or sooner. */
  lemma WishIsGranted(steps: seq<Step>, t: TaskId, wish: real)
    requires Legal(START, steps) && Enabled(Run(START, steps), Ends(t, Returns(Some(wish))))
    ensures var w := Run(START, steps);
            var w', k := Next(w, Ends(t, Returns(Some(wish)))), w.states[t].key;
            && t in w'.states && HasLiveTask(w', k) && w'.tasks[k] == t
            && (w'.states[t].phase.InHandler? || (w'.states[t].phase.Sleeping? && w'.states[t].phase.delay <= wish))
            && (k !in w.pending ==> GoesOnAfter(w'.states[t], wish))
  {
    var w := Run(START, steps);
    RunKeepsDelays(START, steps);
    RunKeepsInv(START, steps);
    HandlerEndsExactly(w, t, Returns(Some(wish)));
    assert Alive(w.states, t);
  }

  // ---------------------------------------------------------------- a request while the handler runs

  /** The session's task is in its handler and will go on after this delay or sooner. */
  ghost predicate DueWithin(w: World, k: Key, t: TaskId, delay: real) {
    && k in w.tasks && w.tasks[k] == t && t in w.states && w.states[t].key == k && w.states[t].phase.InHandler?
    && k in w.pending && w.pending[k] <= delay
  }

  lemma CleanupOfAnother(w: World, k: Key, t: TaskId, delay: real)
    requires Inv(w) && DueWithin(w, k, t, delay) && w.ready != [] && w.ready[0].Cleanup?
    ensures w.ready[0].task in w.states && w.states[w.ready[0].task].key != k
  {
    assert w.ready[0] in w.ready && Alive(w.states, t);
  }

  lemma StillDue(w: World, step: Step, k: Key, t: TaskId, delay: real)
    requires Inv(w) && Enabled(w, step) && DueWithin(w, k, t, delay)
    requires step.Ends? ==> step.task != t
    ensures DueWithin(Next(w, step), k, t, delay)
  {
    assert Alive(w.states, t);
    match step
    case Ask(_, _, _) =>
    case Callbacks =>
      if w.ready[0].Cleanup? {
        CleanupOfAnother(w, k, t, delay);
      }
    case Wakes(_) =>
    case Ends(u, _) => assert Alive(w.states, u) && w.states[u].key != k;
  }

  lemma {:induction false} StillDueAfter(w: World, steps: seq<Step>, k: Key, t: TaskId, delay: real)
    requires Inv(w) && Legal(w, steps) && DueWithin(w, k, t, delay)
    requires forall step :: step in steps && step.Ends? ==> step.task != t
    ensures DueWithin(Run(w, steps), k, t, delay)
    decreases |steps|
  {
    if steps != [] {
      StepKeepsInv(w, steps[0]);
      StillDue(w, steps[0], k, t, delay);
      StillDueAfter(Next(w, steps[0]), steps[1..], k, t, delay);
    }
  }

  /** However the handler ends, its task then goes on within the delay. */
  lemma EndsInTime(w: World, k: Key, t: TaskId, delay: real, result: HandlerResult)
    requires DueWithin(w, k, t, delay) && DelaysOk(w)
    ensures var task := HandlerEnds(w, t, result).states[t];
            task.phase.InHandler? || (task.phase.Sleeping? && task.phase.delay <= delay)
  {
    HandlerEndsExactly(w, t, result);
  }

  lemma AskedIsDue(w: World, k: Key, asked: real, newTask: TaskId, t: TaskId)
    requires Inv(w) && DelaysOk(w) && k != "" && newTask !in w.states
    requires HasLiveTask(w, k) && w.tasks[k] == t && w.states[t].phase.InHandler?
    ensures var w' := Request(w, k, asked, newTask);
            Inv(w') && DelaysOk(w') && DueWithin(w', k, t, if asked > 0.0 then asked else 0.0)
  {
    RequestKeepsInv(w, k, asked, newTask);
    assert Next(w, Ask(k, asked, newTask)) == Request(w, k, asked, newTask);
    StepKeepsDelays(w, Ask(k, asked, newTask));
  }

  lemma ServedInTime(w: World, k: Key, asked: real, newTask: TaskId, more: seq<Step>, t: TaskId, result: HandlerResult)
    requires Inv(w) && DelaysOk(w) && k != "" && newTask !in w.states
    requires HasLiveTask(w, k) && w.tasks[k] == t && w.states[t].phase.InHandler?
    requires Legal(Request(w, k, asked, newTask), more)
    requires forall step :: step in more && step.Ends? ==> step.task != t
    ensures var w' := Run(Request(w, k, asked, newTask), more);
            && Enabled(w', Ends(t, result))
            && var task := Next(w', Ends(t, result)).states[t];
               task.phase.InHandler? || (task.phase.Sleeping? && task.phase.delay <= asked)
  {
    var w1, delay := Request(w, k, asked, newTask), if asked > 0.0 then asked else 0.0;
    AskedIsDue(w, k, asked, newTask, t);
    StillDueAfter(w1, more, k, t, delay);
    RunKeepsDelays(w1, more);
    EndsInTime(Run(w1, more), k, t, delay, result);
  }

  /** A request that comes while its session's handler runs is served in time: whatever happens until the
      handler ends, and however it ends, the task then goes on after what was asked for, or sooner. */
  lemma RequestIsServedInTime(steps: seq<Step>, w: World, k: Key, asked: real, newTask: TaskId, more: seq<Step>,
      t: TaskId, result: HandlerResult)
    requires Legal(START, steps) && w == Run(START, steps) && k != "" && newTask !in w.states
    requires HasLiveTask(w, k) && w.tasks[k] == t && w.states[t].phase.InHandler?
    requires Legal(Request(w, k, asked, newTask), more)
    requires forall step :: step in more && step.Ends? ==> step.task != t
    ensures var w' := Run(Request(w, k, asked, newTask), more);
            && Enabled(w', Ends(t, result))
            && var task := Next(w', Ends(t, result)).states[t];
               task.phase.InHandler? || (task.phase.Sleeping? && task.phase.delay <= asked)
  {
    RunKeepsInv(START, steps);
    RunKeepsDelays(START, steps);
    ServedInTime(w, k, asked, newTask, more, t, result);
  }
}
