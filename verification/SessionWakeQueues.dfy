/** The wake queue as the object it is: two dictionaries that request, the done-callback and the
    run loop assign, together with the event loop's view of the tasks. */
module SessionWakeQueues {
  import opened Sequences
  import Spec = WakeQueue

  class SessionHeartbeatWakeQueue {
    var tasks: map<Spec.Key, Spec.TaskId>
    var pending: map<Spec.Key, real>
    // the event loop: what every task ever created is doing, and the callbacks it will run next
    var states: map<Spec.TaskId, Spec.Task>
    var ready: seq<Spec.Callback>
    ghost var unserved: set<Spec.Key>

    ghost function World(): Spec.World
      reads this
    {
      Spec.World(tasks, pending, states, ready, unserved)
    }

    constructor ()
      ensures World() == Spec.START && Spec.Inv(World())
    {
      tasks, pending, states, ready, unserved := map[], map[], map[], [], {};
    }

    /** True when a new task was started; false when the request was refused or merged into a
        running one. */
    method Request(key: Spec.Key, delay: real, newTask: Spec.TaskId) returns (started: bool)
      requires Spec.Inv(World()) && newTask !in states
      modifies this
      ensures World() == Spec.Request(old(World()), key, delay, newTask) && Spec.Inv(World())
      ensures started <==> key != "" && !Spec.HasLiveTask(old(World()), key)
      ensures key != "" && !started ==> key in pending && pending[key] <= Spec.Max0(delay)
    {
      Spec.RequestKeepsInv(World(), key, delay, newTask);
      if key == "" {
        return false;
      }
      var delay' := Spec.Max0(delay);
      unserved := unserved + {key};
      if key in tasks && !states[tasks[key]].phase.Finished? {
        if key !in pending || delay' < pending[key] {
          pending := pending[key := delay'];
        }
        return false;
      }
      states := states[newTask := Spec.Task(key, Spec.Created(delay'))];
      ready := ready + [Spec.First(newTask)];
      tasks := tasks[key := newTask];
      return true;
    }

    /** The done-callback: forget the task if it is still the registered one, and the pending delay. */
    method Cleanup(doneTask: Spec.TaskId)
      requires Spec.Inv(World()) && ready != [] && ready[0] == Spec.Cleanup(doneTask)
      modifies this
      ensures World() == Spec.RunCallback(old(World())) && Spec.Inv(World())
      ensures unserved == old(unserved)
    {
      Spec.CleanupKeepsInv(World(), doneTask);
      assert Spec.Cleanup(doneTask) in ready;
      var key := states[doneTask].key;
      ready := ready[1..];
      if key in tasks && tasks[key] == doneTask {
        tasks := tasks - {key};
      }
      pending := pending - {key};
    }

    /** A task's first step enters the run loop with its initial delay. */
    method FirstStep(task: Spec.TaskId)
      requires Spec.Inv(World()) && ready != [] && ready[0] == Spec.First(task)
      modifies this
      ensures World() == Spec.RunCallback(old(World())) && Spec.Inv(World())
    {
      Spec.FirstStepKeepsInv(World(), task);
      assert Spec.First(task) in ready;
      var delay := states[task].phase.delay;
      ready := ready[1..];
      SleepOrHandle(task, delay);
    }

    /** The top of the run loop. */
    method SleepOrHandle(task: Spec.TaskId, delay: real)
      requires task in states
      modifies this`states, this`unserved
      ensures World() == Spec.Proceed(old(World()), task, delay)
    {
      if delay > 0.0 {
        states := states[task := states[task].(phase := Spec.Sleeping(delay))];
      } else {
        unserved := unserved - {states[task].key};
        states := states[task := states[task].(phase := Spec.InHandler)];
      }
    }

    /** The delay the handler asked for, or a failed one is given, merged with the pending delay that
        came meanwhile, which is taken off. */
    method NextDelay(key: Spec.Key, result: Spec.HandlerResult) returns (delay: Option<real>)
      modifies this`pending
      ensures delay == Spec.NextDelay(result, Spec.PendingOf(old(World()), key))
      ensures delay.None? <==> result == Spec.Returns(None) && key !in old(pending)
      ensures key !in old(pending) && result.Raises? ==> delay == Some(60.0)
      ensures key in old(pending) && result == Spec.Returns(None) ==> delay == Some(old(pending)[key])
      ensures pending == old(pending) - {key}
    {
      var next := if result.Raises? then Some(Spec.HANDLER_FAILURE_RETRY_DELAY_SECONDS) else result.next;
      if key in pending {
        var pendingDelay := pending[key];
        pending := pending - {key};
        if next.None? {
          return Some(pendingDelay);
        }
        next := Some(if pendingDelay < next.value then pendingDelay else next.value);
      }
      assert pending == old(pending) - {key};
      return if next.None? then None else Some(Spec.Max0(next.value));
    }

    /** The rest of a round of the run loop, from the handler's return (or its exception) to the next
        sleep, the next handler call or the end of the task. */
    method HandlerEnds(task: Spec.TaskId, result: Spec.HandlerResult) returns (ended: bool)
      requires Spec.Inv(World()) && task in states && states[task].phase.InHandler?
      modifies this
      ensures World() == Spec.HandlerEnds(old(World()), task, result) && Spec.Inv(World())
      ensures ended <==> result == Spec.Returns(None) && old(states[task].key) !in old(pending)
      ensures ended ==> states[task].phase.Finished? && states[task].key !in unserved
    {
      Spec.EndsKeepsInv(World(), task, result);
      var key := states[task].key;
      var delay := NextDelay(key, result);
      ended := delay.None?;
      if ended {
        states := states[task := Spec.Task(key, Spec.Finished)];
        ready := ready + [Spec.Cleanup(task)];
      } else {
        SleepOrHandle(task, delay.value);
      }
    }
  }
}
