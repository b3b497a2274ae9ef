/** The per-session wake queue under an event loop that runs ready callbacks in FIFO order.
    A task's first step and its done-callback go through the ready list; sleeping, waking and the
    handler's return happen at any time in between. */
module WakeQueue {
  import opened Sequences

  type Key = string
  type TaskId = nat

  const HANDLER_FAILURE_RETRY_DELAY_SECONDS: real := 60.0

  datatype Phase = Created(delay: real) | Sleeping(delay: real) | InHandler | Finished

  datatype Task = Task(key: Key, phase: Phase)

  datatype Callback = First(task: TaskId) | Cleanup(task: TaskId)

  /** `tasks` and `pending` are the queue's two dictionaries, `states` and `ready` the event loop;
      `unserved` remembers the sessions with a request newer than their handler's last start. */
  datatype World = World(
    tasks: map<Key, TaskId>,
    pending: map<Key, real>,
    states: map<TaskId, Task>,
    ready: seq<Callback>,
    unserved: set<Key>)

  const START: World := World(map[], map[], map[], [], {})

  datatype HandlerResult = Returns(next: Option<real>) | Raises

  function Max0(d: real): real {
    if d > 0.0 then d else 0.0
  }

  predicate HasLiveTask(w: World, k: Key) {
    k in w.tasks && Alive(w.states, w.tasks[k])
  }

  // ---------------------------------------------------------------- request, cleanup and the run loop

  function Request(w: World, k: Key, delay: real, newTask: TaskId): World {
    if k == "" then w
    else if HasLiveTask(w, k) then
      w.(pending := if k !in w.pending || Max0(delay) < w.pending[k] then w.pending[k := Max0(delay)] else w.pending,
         unserved := w.unserved + {k})
    else
      w.(tasks := w.tasks[k := newTask],
         states := w.states[newTask := Task(k, Created(Max0(delay)))],
         ready := w.ready + [First(newTask)],
         unserved := w.unserved + {k})
  }

  /** The top of the run loop: sleep if there is a delay, otherwise start the handler. */
  function Proceed(w: World, t: TaskId, delay: real): World
    requires t in w.states
  {
    if delay > 0.0 then w.(states := w.states[t := w.states[t].(phase := Sleeping(delay))])
    else StartHandler(w, t)
  }

  function StartHandler(w: World, t: TaskId): World
    requires t in w.states
  {
    w.(states := w.states[t := w.states[t].(phase := InHandler)], unserved := w.unserved - {w.states[t].key})
  }

  /** The delay of the next round, or None when the task ends: the handler's wish merged with the
      pending delay that arrived meanwhile. */
  function NextDelay(result: HandlerResult, pending: Option<real>): Option<real> {
    var next := if result.Raises? then Some(HANDLER_FAILURE_RETRY_DELAY_SECONDS) else result.next;
    match pending
    case None => if next.None? then None else Some(Max0(next.value))
    case Some(p) => if next.None? then Some(p) else Some(Max0(if p < next.value then p else next.value))
  }

  function PendingOf(w: World, k: Key): Option<real> {
    if k in w.pending then Some(w.pending[k]) else None
  }

  function HandlerEnds(w: World, t: TaskId, result: HandlerResult): World
    requires t in w.states
  {
    var k := w.states[t].key;
    var w' := w.(pending := w.pending - {k});
    match NextDelay(result, PendingOf(w, k))
    case Some(delay) => Proceed(w', t, delay)
    case None => w'.(states := w.states[t := Task(k, Finished)], ready := w.ready + [Cleanup(t)])
  }

  function RunCallback(w: World): World
    requires w.ready != [] && w.ready[0].task in w.states
  {
    var t := w.ready[0].task;
    var k := w.states[t].key;
    var w' := w.(ready := w.ready[1..]);
    match w.ready[0]
    case First(_) => if w.states[t].phase.Created? then Proceed(w', t, w.states[t].phase.delay) else w'
    case Cleanup(_) =>
      w'.(tasks := if k in w.tasks && w.tasks[k] == t then w.tasks - {k} else w.tasks,
          pending := w.pending - {k})
  }

  // ---------------------------------------------------------------- runs

  datatype Step =
    | Ask(key: Key, delay: real, newTask: TaskId)
    | Callbacks
    | Wakes(task: TaskId)
    | Ends(task: TaskId, result: HandlerResult)

  ghost predicate Enabled(w: World, step: Step) {
    match step
    case Ask(_, _, newTask) => newTask !in w.states
    case Callbacks => w.ready != [] && w.ready[0].task in w.states
    case Wakes(t) => t in w.states && w.states[t].phase.Sleeping?
    case Ends(t, _) => t in w.states && w.states[t].phase.InHandler?
  }

  ghost function Next(w: World, step: Step): World
    requires Enabled(w, step)
  {
    match step
    case Ask(k, delay, newTask) => Request(w, k, delay, newTask)
    case Callbacks => RunCallback(w)
    case Wakes(t) => StartHandler(w, t)
    case Ends(t, result) => HandlerEnds(w, t, result)
  }

  ghost predicate Legal(w: World, steps: seq<Step>)
    decreases |steps|
  {
    steps == [] || (Enabled(w, steps[0]) && Legal(Next(w, steps[0]), steps[1..]))
  }

  ghost function Run(w: World, steps: seq<Step>): World
    requires Legal(w, steps)
    decreases |steps|
  {
    if steps == [] then w else Run(Next(w, steps[0]), steps[1..])
  }

  // ---------------------------------------------------------------- invariants

  type States = map<TaskId, Task>

  predicate Alive(states: States, t: TaskId) {
    t in states && !states[t].phase.Finished?
  }

  /** The dictionary knows every live task, so no session has two. */
  ghost predicate TasksOk(tasks: map<Key, TaskId>, states: States) {
    && (forall k :: k in tasks ==> tasks[k] in states && states[tasks[k]].key == k)
    && (forall t :: Alive(states, t) ==> states[t].key in tasks && tasks[states[t].key] == t)
  }

  ghost predicate ReadyOk(ready: seq<Callback>, states: States) {
    && Distinct(ready)
    && (forall c :: c in ready ==> c.task in states)
    && (forall t :: First(t) in ready <==> t in states && states[t].phase.Created?)
    && (forall t :: Cleanup(t) in ready ==> states[t].phase.Finished?)
  }

  /** FIFO order: while a finished task's cleanup is still to run, a newer task of the same session
      has not taken its first step, and that step comes after the cleanup in the ready list. */
  ghost predicate CleanupFirst(ready: seq<Callback>, states: States)
    requires forall c :: c in ready ==> c.task in states
  {
    && (forall u, t :: Cleanup(u) in ready && Alive(states, t) && states[t].key == states[u].key ==>
          states[t].phase.Created?)
    && (forall i, j :: 0 <= i < j < |ready| && ready[i].First? && ready[j].Cleanup? ==>
          states[ready[i].task].key != states[ready[j].task].key)
  }

  /** Nothing is forgotten: a session with an unserved request has a live task that has still to
      start the handler, or is in it with a pending delay set. */
  ghost predicate NoLostWakeUp(w: World) {
    forall k :: k in w.unserved ==>
      HasLiveTask(w, k) && (w.states[w.tasks[k]].phase.InHandler? ==> k in w.pending)
  }

  ghost predicate Inv(w: World) {
    && TasksOk(w.tasks, w.states)
    && ReadyOk(w.ready, w.states)
    && CleanupFirst(w.ready, w.states)
    && NoLostWakeUp(w)
  }

  // ---------------------------------------------------------------- every step keeps them

  lemma CreateKeepsReady(ready: seq<Callback>, states: States, t: TaskId, task: Task)
    requires ReadyOk(ready, states) && CleanupFirst(ready, states)
    requires t !in states && task.phase.Created?
    ensures ReadyOk(ready + [First(t)], states[t := task]) && CleanupFirst(ready + [First(t)], states[t := task])
  {
    var ready', states' := ready + [First(t)], states[t := task];
    assert First(t) !in ready;
    DistinctAppend(ready, [First(t)]);
    assert forall c :: c in ready' <==> c in ready || c == First(t);
    forall i, j | 0 <= i < j < |ready'| && ready'[i].First? && ready'[j].Cleanup?
      ensures states'[ready'[i].task].key != states'[ready'[j].task].key
    {
      assert j < |ready| && ready[i] in ready && ready[j] in ready;
    }
  }

  lemma CreateKeepsTasks(w: World, k: Key, delay: real, newTask: TaskId)
    requires TasksOk(w.tasks, w.states) && NoLostWakeUp(w) && newTask !in w.states
    requires k != "" && !HasLiveTask(w, k)
    ensures var w' := Request(w, k, delay, newTask); TasksOk(w'.tasks, w'.states) && NoLostWakeUp(w')
  {
    assert forall t :: Alive(w.states, t) ==> w.states[t].key != k;
  }

  lemma RequestKeepsInv(w: World, k: Key, delay: real, newTask: TaskId)
    requires Inv(w) && newTask !in w.states
    ensures Inv(Request(w, k, delay, newTask))
  {
    if k != "" && !HasLiveTask(w, k) {
      CreateKeepsTasks(w, k, delay, newTask);
      CreateKeepsReady(w.ready, w.states, newTask, Task(k, Created(Max0(delay))));
    }
  }

  /** A live task whose first step is done moves to a later phase. */
  lemma MoveKeepsReady(ready: seq<Callback>, states: States, t: TaskId, phase: Phase)
    requires ReadyOk(ready, states) && CleanupFirst(ready, states)
    requires Alive(states, t) && !states[t].phase.Created? && (phase.Sleeping? || phase.InHandler?)
    ensures var states' := states[t := states[t].(phase := phase)];
            ReadyOk(ready, states') && CleanupFirst(ready, states')
  {
  }

  lemma ProceedKeepsInv(w: World, t: TaskId, delay: real)
    requires Inv(w) && Alive(w.states, t) && !w.states[t].phase.Created?
    ensures Inv(Proceed(w, t, delay))
  {
    MoveKeepsReady(w.ready, w.states, t, if delay > 0.0 then Sleeping(delay) else InHandler);
  }

  lemma FinishKeepsReady(ready: seq<Callback>, states: States, t: TaskId)
    requires ReadyOk(ready, states) && CleanupFirst(ready, states) && t in states && states[t].phase.InHandler?
    requires forall u :: Alive(states, u) && u != t ==> states[u].key != states[t].key
    ensures var states' := states[t := Task(states[t].key, Finished)];
            ReadyOk(ready + [Cleanup(t)], states') && CleanupFirst(ready + [Cleanup(t)], states')
  {
    var k := states[t].key;
    var ready', states' := ready + [Cleanup(t)], states[t := Task(k, Finished)];
    assert Cleanup(t) !in ready && First(t) !in ready;
    DistinctAppend(ready, [Cleanup(t)]);
    assert forall c :: c in ready' <==> c in ready || c == Cleanup(t);
    forall i, j | 0 <= i < j < |ready'| && ready'[i].First? && ready'[j].Cleanup?
      ensures states'[ready'[i].task].key != states'[ready'[j].task].key
    {
      assert ready'[i] == ready[i] && ready[i] in ready && Alive(states, ready[i].task);
    }
  }

  /** With no delay pending and none wished for the task ends, and nothing is left unserved. */
  lemma FinishKeepsTasks(w: World, t: TaskId)
    requires TasksOk(w.tasks, w.states) && NoLostWakeUp(w)
    requires t in w.states && w.states[t].phase.InHandler? && w.states[t].key !in w.pending
    ensures w.states[t].key !in w.unserved
    ensures var states' := w.states[t := Task(w.states[t].key, Finished)];
            TasksOk(w.tasks, states') && NoLostWakeUp(w.(states := states', ready := w.ready + [Cleanup(t)]))
  {
    assert Alive(w.states, t);
  }

  lemma FinishKeepsInv(w: World, t: TaskId)
    requires Inv(w) && t in w.states && w.states[t].phase.InHandler? && w.states[t].key !in w.pending
    ensures w.states[t].key !in w.unserved
    ensures Inv(w.(states := w.states[t := Task(w.states[t].key, Finished)], ready := w.ready + [Cleanup(t)]))
  {
    assert Alive(w.states, t);
    FinishKeepsTasks(w, t);
    FinishKeepsReady(w.ready, w.states, t);
  }

  /** A live task that goes on keeps its place in the dictionary, and serves its session if it enters
      the handler. */
  lemma GoOnKeepsTasks(w: World, t: TaskId, delay: real)
    requires TasksOk(w.tasks, w.states) && NoLostWakeUp(w) && Alive(w.states, t)
    ensures var w' := Proceed(w.(pending := w.pending - {w.states[t].key}), t, delay);
            TasksOk(w'.tasks, w'.states) && NoLostWakeUp(w')
  {
    var k := w.states[t].key;
    var w' := Proceed(w.(pending := w.pending - {k}), t, delay);
    forall q | q in w'.unserved
      ensures HasLiveTask(w', q) && (w'.states[w'.tasks[q]].phase.InHandler? ==> q in w'.pending)
    {
      assert q in w.unserved && HasLiveTask(w, q);
      assert q != k ==> w.tasks[q] != t;
    }
  }

  lemma GoOnKeepsInv(w: World, t: TaskId, delay: real)
    requires Inv(w) && t in w.states && w.states[t].phase.InHandler?
    ensures Inv(Proceed(w.(pending := w.pending - {w.states[t].key}), t, delay))
  {
    GoOnKeepsTasks(w, t, delay);
    MoveKeepsReady(w.ready, w.states, t, if delay > 0.0 then Sleeping(delay) else InHandler);
  }

  /** The handler ends: the task goes on when there is a delay, and a request that came meanwhile
      always leaves one. */
  lemma EndsKeepsInv(w: World, t: TaskId, result: HandlerResult)
    requires Inv(w) && t in w.states && w.states[t].phase.InHandler?
    ensures Inv(HandlerEnds(w, t, result))
    ensures HandlerEnds(w, t, result).states[t].phase.Finished? ==> w.states[t].key !in w.unserved
  {
    var k := w.states[t].key;
    match NextDelay(result, PendingOf(w, k))
    case Some(delay) =>
      GoOnKeepsInv(w, t, delay);
    case None =>
      assert w.pending - {k} == w.pending;
      FinishKeepsInv(w, t);
  }

  lemma PopKeepsReady(ready: seq<Callback>, states: States)
    requires ReadyOk(ready, states) && CleanupFirst(ready, states) && ready != []
    ensures Distinct(ready[1..]) && forall c :: c in ready[1..] <==> c in ready && c != ready[0]
    ensures CleanupFirst(ready[1..], states)
  {
    DistinctTail(ready);
    assert ready == [ready[0]] + ready[1..];
  }

  lemma FirstStepKeepsReady(ready: seq<Callback>, states: States, t: TaskId, phase: Phase)
    requires ReadyOk(ready, states) && CleanupFirst(ready, states) && ready != [] && ready[0] == First(t)
    requires phase.Sleeping? || phase.InHandler?
    ensures var states' := states[t := states[t].(phase := phase)];
            ReadyOk(ready[1..], states') && CleanupFirst(ready[1..], states')
  {
    PopKeepsReady(ready, states);
    forall u | Cleanup(u) in ready[1..]
      ensures states[u].key != states[t].key
    {
      var j :| 0 <= j < |ready| && ready[j] == Cleanup(u);
      assert ready[0].First?;
    }
  }

  lemma FirstStepKeepsInv(w: World, t: TaskId)
    requires Inv(w) && w.ready != [] && w.ready[0] == First(t)
    ensures Inv(RunCallback(w))
  {
    assert First(t) in w.ready;
    var delay := w.states[t].phase.delay;
    FirstStepKeepsReady(w.ready, w.states, t, if delay > 0.0 then Sleeping(delay) else InHandler);
  }

  lemma CleanupKeepsInv(w: World, t: TaskId)
    requires Inv(w) && w.ready != [] && w.ready[0] == Cleanup(t)
    ensures Inv(RunCallback(w))
  {
    PopKeepsReady(w.ready, w.states);
    assert Cleanup(t) in w.ready;
  }

  lemma StepKeepsInv(w: World, step: Step)
    requires Inv(w) && Enabled(w, step)
    ensures Inv(Next(w, step))
  {
    match step
    case Ask(k, delay, newTask) => RequestKeepsInv(w, k, delay, newTask);
    case Callbacks =>
      if w.ready[0].First? {
        FirstStepKeepsInv(w, w.ready[0].task);
      } else {
        CleanupKeepsInv(w, w.ready[0].task);
      }
    case Wakes(t) => ProceedKeepsInv(w, t, 0.0);
    case Ends(t, result) => EndsKeepsInv(w, t, result);
  }

  lemma {:induction false} RunKeepsInv(w: World, steps: seq<Step>)
    requires Inv(w) && Legal(w, steps)
    ensures Inv(Run(w, steps))
    decreases |steps|
  {
    if steps != [] {
      StepKeepsInv(w, steps[0]);
      RunKeepsInv(Next(w, steps[0]), steps[1..]);
    }
  }
}
