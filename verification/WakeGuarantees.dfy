/** What every run of the wake queue keeps, and why it needs callbacks in FIFO order. */
module WakeGuarantees {
  import opened Sequences
  import opened WakeQueue

  /** No wake-up is lost and no session ever has two live tasks, over all interleavings. */
  lemma NoWakeUpIsLost(steps: seq<Step>)
    requires Legal(START, steps)
    ensures var w := Run(START, steps);
            && NoLostWakeUp(w)
            && (forall t, u :: Alive(w.states, t) && Alive(w.states, u) && w.states[t].key == w.states[u].key ==>
                 t == u)
            && (forall k :: k in w.unserved ==> exists t :: Alive(w.states, t) && w.states[t].key == k)
  {
    RunKeepsInv(START, steps);
    var w := Run(START, steps);
    forall k | k in w.unserved
      ensures exists t :: Alive(w.states, t) && w.states[t].key == k
    {
      assert Alive(w.states, w.tasks[k]) && w.states[w.tasks[k]].key == k;
    }
  }

  /** A task that ends leaves no unserved request of its session behind. */
  lemma TaskNeverExitsUnserved(steps: seq<Step>, t: TaskId, result: HandlerResult)
    requires Legal(START, steps) && Enabled(Run(START, steps), Ends(t, result))
    ensures var w := Run(START, steps);
            HandlerEnds(w, t, result).states[t].phase.Finished? ==> w.states[t].key !in w.unserved
  {
    RunKeepsInv(START, steps);
    EndsKeepsInv(Run(START, steps), t, result);
  }

  lemma OneMoreStep(w: World, step: Step, rest: seq<Step>)
    requires Enabled(w, step) && Legal(Next(w, step), rest)
    ensures Legal(w, [step] + rest) && Run(w, [step] + rest) == Run(Next(w, step), rest)
  {
    assert ([step] + rest)[1..] == rest;
  }

  /** A session's handler runs once and its task ends; before the done-callback another request comes. */
  function ServedAndAsked(k: Key): seq<Step> {
    [Ask(k, 0.0, 0)] + ([Callbacks] + ([Ends(0, Returns(None))] + ([Ask(k, 0.0, 1)] + [])))
  }

  /** The new task enters the handler, a third request comes, and only then the done-callback of the
      first task is run. */
  function AskedAndCleaned(k: Key): seq<Step> {
    [Callbacks] + ([Ask(k, 0.25, 2)] + ([Callbacks] + []))
  }

  /** The event loop with its first two callbacks in the other order. */
  function Swapped(w: World): World
    requires |w.ready| == 2
  {
    w.(ready := [w.ready[1], w.ready[0]])
  }

  lemma ServedAndAskedRuns(k: Key)
    requires k != ""
    ensures Legal(START, ServedAndAsked(k))
    ensures Run(START, ServedAndAsked(k))
            == World(map[k := 1], map[], map[0 := Task(k, Finished), 1 := Task(k, Created(0.0))],
              [Cleanup(0), First(1)], {k})
  {
    var w1 := World(map[k := 0], map[], map[0 := Task(k, Created(0.0))], [First(0)], {k});
    var w2 := World(map[k := 0], map[], map[0 := Task(k, InHandler)], [], {});
    var w3 := World(map[k := 0], map[], map[0 := Task(k, Finished)], [Cleanup(0)], {});
    var w4 := World(map[k := 1], map[], map[0 := Task(k, Finished), 1 := Task(k, Created(0.0))], [Cleanup(0), First(1)],
      {k});
    assert Next(START, Ask(k, 0.0, 0)) == w1;
    assert Next(w1, Callbacks) == w2;
    assert Next(w2, Ends(0, Returns(None))) == w3;
    assert Next(w3, Ask(k, 0.0, 1)) == w4;
    OneMoreStep(w3, Ask(k, 0.0, 1), []);
    OneMoreStep(w2, Ends(0, Returns(None)), [Ask(k, 0.0, 1)] + []);
    OneMoreStep(w1, Callbacks, [Ends(0, Returns(None))] + ([Ask(k, 0.0, 1)] + []));
    OneMoreStep(START, Ask(k, 0.0, 0), [Callbacks] + ([Ends(0, Returns(None))] + ([Ask(k, 0.0, 1)] + [])));
  }

  lemma AskedAndCleanedRuns(w: World, k: Key)
    requires k != ""
    requires w == World(map[k := 1], map[], map[0 := Task(k, Finished), 1 := Task(k, Created(0.0))],
             [First(1), Cleanup(0)], {k})
    ensures Legal(w, AskedAndCleaned(k))
    ensures Run(w, AskedAndCleaned(k))
            == World(map[k := 1], map[], map[0 := Task(k, Finished), 1 := Task(k, InHandler)], [], {k})
  {
    var states := map[0 := Task(k, Finished), 1 := Task(k, InHandler)];
    var w1 := World(map[k := 1], map[], states, [Cleanup(0)], {});
    var w2 := World(map[k := 1], map[k := 0.25], states, [Cleanup(0)], {k});
    var w3 := World(map[k := 1], map[], states, [], {k});
    assert Next(w, Callbacks) == w1;
    assert HasLiveTask(w1, k) && Next(w1, Ask(k, 0.25, 2)) == w2;
    assert Next(w2, Callbacks) == w3;
    OneMoreStep(w2, Callbacks, []);
    OneMoreStep(w1, Ask(k, 0.25, 2), [Callbacks] + []);
    OneMoreStep(w, Callbacks, [Ask(k, 0.25, 2)] + ([Callbacks] + []));
  }

  /** The FIFO order is needed: a run of seven steps in which the loop swaps two callbacks once ends
      with the cleanup of a finished task deleting the pending delay of its successor; the successor
      then ends with the request unserved. */
  lemma CleanupOutOfOrderLosesAWakeUp(k: Key)
    requires k != ""
    ensures Legal(START, ServedAndAsked(k)) && |Run(START, ServedAndAsked(k)).ready| == 2
    ensures var w := Swapped(Run(START, ServedAndAsked(k)));
            && Legal(w, AskedAndCleaned(k))
            && var w' := Run(w, AskedAndCleaned(k));
               && !NoLostWakeUp(w') && Enabled(w', Ends(1, Returns(None)))
               && HandlerEnds(w', 1, Returns(None)).states[1].phase.Finished? && k in w'.unserved
  {
    ServedAndAskedRuns(k);
    AskedAndCleanedRuns(Swapped(Run(START, ServedAndAsked(k))), k);
  }
}
