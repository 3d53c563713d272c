/**
 * Every interleaving of callers arriving, tasks ending, timers firing and time passing: the gate is a
 * FIFO counting semaphore, and each caller gets one answer in time.
 */
module GateRuns {
  import opened Wrappers
  import opened Gate

  datatype Phase = Waiting | Running | Ended | TimedOut | Overflowed

  /** A caller of `run`: when it arrived, when it got its answer, and how far it is. */
  datatype Caller = Caller(phase: Phase, arrivedAt: nat, answeredAt: nat)

  datatype Options = Options(limit: int, maxQueue: int, timeout: int)

  /** The constructor's Math.max calls. */
  function Clamp(o: Options): (c: Options)
    ensures c.limit >= 1 && c.maxQueue >= 0 && c.timeout >= 1
  {
    Options(if o.limit < 1 then 1 else o.limit, if o.maxQueue < 0 then 0 else o.maxQueue,
            if o.timeout < 1 then 1 else o.timeout)
  }

  /** arrivals: callers that were not turned away at once; grants: callers in the order they got a permit. */
  datatype World = World(core: Core, callers: map<nat, Caller>, now: nat, arrivals: seq<nat>, grants: seq<nat>)

  const INITIAL := World(Core(0, [], {}), map[], 0, [], [])

  datatype Event =
    | Arrive(id: nat)
    | TaskEnds(id: nat)       // the task of a running caller resolves or rejects
    | TimerDue(id: nat)       // the timer of a caller that was queued once
    | Tick

  ghost predicate Enabled(w: World, ev: Event, o: Options) {
    match ev
    case Arrive(id) => id !in w.callers
    case TaskEnds(id) => id in w.callers && w.callers[id].phase == Running
    case TimerDue(id) => id in w.callers && w.callers[id].arrivedAt + o.timeout <= w.now &&
                         (w.callers[id].phase == Waiting || id in w.core.settled)
    // timers that are due fire before time advances
    case Tick => forall id :: id in w.callers && w.callers[id].phase == Waiting ==>
      w.now < w.callers[id].arrivedAt + o.timeout
  }

  function Step(w: World, ev: Event, o: Options): World {
    match ev
    case Arrive(id) =>
      var (core, verdict) := Acquire(w.core, id, o.limit, o.maxQueue);
      (match verdict
       case Entered =>
         w.(core := core, callers := w.callers[id := Caller(Running, w.now, w.now)],
            arrivals := w.arrivals + [id], grants := w.grants + [id])
       case Overflow => w.(core := core, callers := w.callers[id := Caller(Overflowed, w.now, w.now)])
       case Queued =>
         w.(core := core, callers := w.callers[id := Caller(Waiting, w.now, w.now)], arrivals := w.arrivals + [id]))
    case TaskEnds(id) =>
      if id !in w.callers then w
      else
        var ended := w.callers[id := w.callers[id].(phase := Ended)];
        var (core, next) := Release(w.core);
        if next.Some? && next.value in ended then
          w.(core := core, grants := w.grants + [next.value],
             callers := ended[next.value := ended[next.value].(phase := Running, answeredAt := w.now)])
        else w.(core := core, callers := ended)
    case TimerDue(id) =>
      var (core, rejected) := FireTimer(w.core, id);
      if rejected && id in w.callers
      then w.(core := core, callers := w.callers[id := w.callers[id].(phase := TimedOut, answeredAt := w.now)])
      else w.(core := core)
    case Tick => w.(now := w.now + 1)
  }

  // ---------------------------------------------------------------- the abstract semaphore

  /** Who holds a permit, and who waits for one. */
  datatype Semaphore = Semaphore(holders: set<nat>, queue: seq<nat>)

  function Abstract(w: World): Semaphore {
    Semaphore((set id | id in w.callers && w.callers[id].phase == Running), w.core.queue)
  }

  function Remove(queue: seq<nat>, id: nat): seq<nat> {
    if queue == [] then []
    else if queue[|queue| - 1] == id then Remove(queue[..|queue| - 1], id)
    else Remove(queue[..|queue| - 1], id) + [queue[|queue| - 1]]
  }

  /** A textbook FIFO semaphore with a bounded queue. */
  function SemaphoreStep(s: Semaphore, ev: Event, o: Options): Semaphore {
    match ev
    case Arrive(id) =>
      if |s.holders| < o.limit then s.(holders := s.holders + {id})
      else if |s.queue| < o.maxQueue then s.(queue := s.queue + [id])
      else s
    case TaskEnds(id) =>
      if s.queue == [] then s.(holders := s.holders - {id})
      else Semaphore(s.holders - {id} + {s.queue[0]}, s.queue[1..])
    case TimerDue(id) => s.(queue := Remove(s.queue, id))
    case Tick => s
  }

  // ---------------------------------------------------------------- the invariant

  ghost predicate NoRepeats(s: seq<nat>) {
    forall i, j :: 0 <= i < j < |s| ==> s[i] != s[j]
  }

  /** Arrivals that did not time out. */
  function Kept(arrivals: seq<nat>, callers: map<nat, Caller>): seq<nat> {
    if arrivals == [] then []
    else
      var last := arrivals[|arrivals| - 1];
      var rest := Kept(arrivals[..|arrivals| - 1], callers);
      if last in callers && callers[last].phase == TimedOut then rest else rest + [last]
  }

  /** The permit counter, the bounds, and why a queue means that no permit is free. */
  ghost predicate Counted(w: World, o: Options) {
    && w.core.active == |Abstract(w).holders|
    && 0 <= w.core.active <= o.limit
    && |w.core.queue| <= o.maxQueue
    && (w.core.queue != [] ==> w.core.active == o.limit)
  }

  /** The queue holds exactly the callers without an answer; a settled waiter is never in it. */
  ghost predicate Answered(w: World, o: Options) {
    && NoRepeats(w.core.queue)
    && (forall id :: id in w.core.queue <==> id in w.callers && w.callers[id].phase == Waiting)
    && (forall id :: id in w.core.settled ==> id in w.callers && w.callers[id].phase !in {Waiting, Overflowed})
  }

  ghost predicate InTime(w: World, o: Options) {
    forall id :: id in w.callers ==>
      var c := w.callers[id];
      if c.phase == Waiting then w.now <= c.arrivedAt + o.timeout
      else c.answeredAt <= c.arrivedAt + o.timeout
  }

  /** Permits are granted in the order of arrival, timed-out callers left out, and the queue comes next. */
  ghost predicate Fifo(w: World) {
    && NoRepeats(w.arrivals)
    && (forall id :: id in w.arrivals ==> id in w.callers && w.callers[id].phase != Overflowed)
    && w.grants + w.core.queue == Kept(w.arrivals, w.callers)
  }

  ghost predicate Inv(w: World, o: Options) {
    Counted(w, o) && Answered(w, o) && InTime(w, o) && Fifo(w)
  }

  // ---------------------------------------------------------------- removing and keeping

  lemma {:induction false} RemoveAbsent(queue: seq<nat>, id: nat)
    requires id !in queue
    ensures Remove(queue, id) == queue
  {
    if queue != [] {
      RemoveAbsent(queue[..|queue| - 1], id);
    }
  }

  lemma {:induction false} RemoveAppend(a: seq<nat>, b: seq<nat>, id: nat)
    ensures Remove(a + b, id) == Remove(a, id) + Remove(b, id)
  {
    if b == [] {
      assert a + b == a;
    } else {
      assert (a + b)[..|a + b| - 1] == a + b[..|b| - 1];
      RemoveAppend(a, b[..|b| - 1], id);
    }
  }

  /** On a queue without repetitions, splicing the first occurrence out removes the caller. */
  lemma {:induction false} DropIsRemove(queue: seq<nat>, id: nat)
    requires NoRepeats(queue)
    ensures Drop(queue, id) == Remove(queue, id)
  {
    if queue != [] {
      var rest := queue[1..];
      assert queue == [queue[0]] + rest;
      RemoveAppend([queue[0]], rest, id);
      assert [queue[0]][..0] == [] && Remove([], id) == [];
      DropIsRemove(rest, id);
      if queue[0] == id {
        RemoveAbsent(rest, id);
      }
    }
  }

  lemma {:induction false} RemoveMembers(queue: seq<nat>, id: nat)
    requires NoRepeats(queue)
    ensures NoRepeats(Remove(queue, id)) && |Remove(queue, id)| <= |queue|
    ensures forall x :: x in Remove(queue, id) <==> x in queue && x != id
  {
    if queue != [] {
      var n := |queue| - 1;
      RemoveMembers(queue[..n], id);
      assert queue == queue[..n] + [queue[n]];
      var r := Remove(queue[..n], id);
      assert forall i :: 0 <= i < |r| ==> r[i] in queue[..n];
    }
  }

  lemma {:induction false} KeptSame(arrivals: seq<nat>, callers: map<nat, Caller>, after: map<nat, Caller>)
    requires forall id :: id in arrivals ==>
               (id in callers && callers[id].phase == TimedOut <==> id in after && after[id].phase == TimedOut)
    ensures Kept(arrivals, callers) == Kept(arrivals, after)
  {
    if arrivals != [] {
      KeptSame(arrivals[..|arrivals| - 1], callers, after);
    }
  }

  lemma {:induction false} KeptDrops(arrivals: seq<nat>, callers: map<nat, Caller>, id: nat, late: Caller)
    requires late.phase == TimedOut
    ensures Kept(arrivals, callers[id := late]) == Remove(Kept(arrivals, callers), id)
  {
    if arrivals != [] {
      var n := |arrivals| - 1;
      KeptDrops(arrivals[..n], callers, id, late);
      var rest := Kept(arrivals[..n], callers);
      assert (rest + [arrivals[n]])[..|rest|] == rest;
    }
  }

  lemma {:induction false} KeptMembers(arrivals: seq<nat>, callers: map<nat, Caller>)
    requires NoRepeats(arrivals)
    ensures NoRepeats(Kept(arrivals, callers))
    ensures forall id :: id in Kept(arrivals, callers) ==> id in arrivals
  {
    if arrivals != [] {
      var n := |arrivals| - 1;
      KeptMembers(arrivals[..n], callers);
      var rest := Kept(arrivals[..n], callers);
      forall i | 0 <= i < |rest| ensures rest[i] != arrivals[n] {
        assert rest[i] in arrivals[..n];
      }
    }
  }

  // ---------------------------------------------------------------- each step

  lemma KeptAppend(arrivals: seq<nat>, callers: map<nat, Caller>, id: nat, c: Caller)
    requires id !in arrivals && c.phase != TimedOut
    ensures Kept(arrivals + [id], callers[id := c]) == Kept(arrivals, callers) + [id]
  {
    assert (arrivals + [id])[..|arrivals|] == arrivals;
    KeptSame(arrivals, callers, callers[id := c]);
  }

  lemma EnterKeepsInv(w: World, id: nat, o: Options)
    requires o == Clamp(o) && Inv(w, o) && id !in w.callers && w.core.active < o.limit
    ensures Inv(Step(w, Arrive(id), o), o)
    ensures Abstract(Step(w, Arrive(id), o)) == SemaphoreStep(Abstract(w), Arrive(id), o)
  {
    hide Fifo, Answered, InTime;
    var w' := Step(w, Arrive(id), o);
    assert w.core.queue == [];
    assert Abstract(w').holders == Abstract(w).holders + {id};
    EnterFifo(w, w', id, w'.callers[id]);
    EnterAnswers(w, w', id, o);
  }

  lemma EnterFifo(w: World, w': World, id: nat, c: Caller)
    requires Fifo(w) && id !in w.callers && w.core.queue == [] == w'.core.queue && c.phase == Running
    requires w'.callers == w.callers[id := c] && w'.arrivals == w.arrivals + [id] && w'.grants == w.grants + [id]
    ensures Fifo(w')
  {
    KeptAppend(w.arrivals, w.callers, id, c);
    assert w'.grants + [] == w'.grants && w.grants + [] == w.grants;
  }

  lemma EnterAnswers(w: World, w': World, id: nat, o: Options)
    requires Answered(w, o) && InTime(w, o) && o.timeout >= 1 && id !in w.callers
    requires w'.core == w.core.(active := w'.core.active) &&
             w'.callers == w.callers[id := Caller(Running, w.now, w.now)]
    requires w'.now == w.now
    ensures Answered(w', o) && InTime(w', o)
  {}

  lemma OverflowKeepsInv(w: World, id: nat, o: Options)
    requires o == Clamp(o) && Inv(w, o) && id !in w.callers
    requires w.core.active >= o.limit && |w.core.queue| >= o.maxQueue
    ensures Inv(Step(w, Arrive(id), o), o)
    ensures Abstract(Step(w, Arrive(id), o)) == SemaphoreStep(Abstract(w), Arrive(id), o)
  {
    var w' := Step(w, Arrive(id), o);
    assert id !in w.arrivals;
    assert Abstract(w').holders == Abstract(w).holders;
    KeptSame(w.arrivals, w.callers, w'.callers);
  }

  lemma QueueKeepsInv(w: World, id: nat, o: Options)
    requires o == Clamp(o) && Inv(w, o) && id !in w.callers
    requires w.core.active >= o.limit && |w.core.queue| < o.maxQueue
    ensures Inv(Step(w, Arrive(id), o), o)
    ensures Abstract(Step(w, Arrive(id), o)) == SemaphoreStep(Abstract(w), Arrive(id), o)
  {
    var w' := Step(w, Arrive(id), o);
    assert id !in w.arrivals && id !in w.core.queue;
    assert Abstract(w').holders == Abstract(w).holders;
    KeptAppend(w.arrivals, w.callers, id, w'.callers[id]);
    assert w.grants + (w.core.queue + [id]) == w.grants + w.core.queue + [id];
  }

  lemma LastTaskKeepsInv(w: World, id: nat, o: Options)
    requires o == Clamp(o) && Inv(w, o) && Enabled(w, TaskEnds(id), o) && w.core.queue == []
    ensures Inv(Step(w, TaskEnds(id), o), o)
    ensures Abstract(Step(w, TaskEnds(id), o)) == SemaphoreStep(Abstract(w), TaskEnds(id), o)
  {
    var w' := Step(w, TaskEnds(id), o);
    KeptSame(w.arrivals, w.callers, w'.callers);
    assert id in Abstract(w).holders;
    assert Abstract(w').holders == Abstract(w).holders - {id};
  }

  lemma HandOff(w: World, id: nat, o: Options)
    requires Inv(w, o) && Enabled(w, TaskEnds(id), o) && w.core.queue != []
    ensures var head := w.core.queue[0];
      && head != id && head in w.callers && w.callers[head].phase == Waiting && head !in w.core.settled
      && Step(w, TaskEnds(id), o) ==
         w.(core := Core(w.core.active, w.core.queue[1..], w.core.settled + {head}),
            grants := w.grants + [head],
            callers := w.callers[id := w.callers[id].(phase := Ended)]
                                [head := w.callers[head].(phase := Running, answeredAt := w.now)])
  {
    assert w.core.queue[0] in w.core.queue;
  }

  lemma HandOffCounts(w: World, w': World, id: nat, head: nat)
    requires id in w.callers && w.callers[id].phase == Running && head in w.callers && w.callers[head].phase == Waiting
    requires w'.callers == w.callers[id := w.callers[id].(phase := Ended)]
                                    [head := w.callers[head].(phase := Running, answeredAt := w.now)]
    ensures Abstract(w').holders == Abstract(w).holders - {id} + {head}
    ensures |Abstract(w').holders| == |Abstract(w).holders|
  {
    var before := Abstract(w).holders;
    assert id in before && head !in before;
    assert Abstract(w').holders == before - {id} + {head};
  }

  lemma HeadServed(w: World, w': World, id: nat, head: nat, o: Options)
    requires Answered(w, o) && InTime(w, o) && w.core.queue != [] && head == w.core.queue[0]
    requires id in w.callers && w.callers[id].phase == Running && head in w.callers && head != id
    requires w'.core.queue == w.core.queue[1..] && w'.core.settled == w.core.settled + {head} && w'.now == w.now
    requires w'.callers == w.callers[id := w.callers[id].(phase := Ended)]
                                    [head := w.callers[head].(phase := Running, answeredAt := w.now)]
    ensures Answered(w', o) && InTime(w', o)
  {
    var rest := w.core.queue[1..];
    assert w.core.queue == [head] + rest;
    assert head in w.core.queue;
    assert forall x :: x in rest <==> x in w.core.queue && x != head;
  }

  lemma NextTaskAnswered(w: World, id: nat, o: Options)
    requires Inv(w, o) && Enabled(w, TaskEnds(id), o) && w.core.queue != []
    ensures Answered(Step(w, TaskEnds(id), o), o) && InTime(Step(w, TaskEnds(id), o), o)
  {
    HandOff(w, id, o);
    HeadServed(w, Step(w, TaskEnds(id), o), id, w.core.queue[0], o);
  }

  lemma NextTaskFifo(w: World, id: nat, o: Options)
    requires Inv(w, o) && Enabled(w, TaskEnds(id), o) && w.core.queue != []
    ensures Fifo(Step(w, TaskEnds(id), o))
  {
    var w', head := Step(w, TaskEnds(id), o), w.core.queue[0];
    HandOff(w, id, o);
    KeptSame(w.arrivals, w.callers, w'.callers);
    assert w.grants + [head] + w.core.queue[1..] == w.grants + w.core.queue;
  }

  lemma NextTaskKeepsInv(w: World, id: nat, o: Options)
    requires o == Clamp(o) && Inv(w, o) && Enabled(w, TaskEnds(id), o) && w.core.queue != []
    ensures Inv(Step(w, TaskEnds(id), o), o)
    ensures Abstract(Step(w, TaskEnds(id), o)) == SemaphoreStep(Abstract(w), TaskEnds(id), o)
  {
    NextTaskAnswered(w, id, o);
    NextTaskFifo(w, id, o);
    HandOff(w, id, o);
    HandOffCounts(w, Step(w, TaskEnds(id), o), id, w.core.queue[0]);
  }

  /** A caller in the queue has not been granted anything. */
  lemma QueuedNotGranted(w: World, id: nat)
    requires Fifo(w) && id in w.core.queue
    ensures id !in w.grants
  {
    KeptMembers(w.arrivals, w.callers);
    var all := w.grants + w.core.queue;
    var k :| 0 <= k < |w.core.queue| && w.core.queue[k] == id;
    assert all[|w.grants| + k] == id;
    forall i | 0 <= i < |w.grants| ensures w.grants[i] != id {
      assert all[i] == w.grants[i];
    }
  }

  lemma TimeoutFifo(w: World, w': World, id: nat, late: Caller)
    requires Fifo(w) && NoRepeats(w.core.queue) && id in w.core.queue && late.phase == TimedOut
    requires w'.core.queue == Remove(w.core.queue, id) && w'.callers == w.callers[id := late]
    requires w'.arrivals == w.arrivals && w'.grants == w.grants
    ensures Fifo(w')
  {
    QueuedNotGranted(w, id);
    KeptDrops(w.arrivals, w.callers, id, late);
    RemoveAppend(w.grants, w.core.queue, id);
    RemoveAbsent(w.grants, id);
  }

  lemma TimerKeepsInv(w: World, id: nat, o: Options)
    requires o == Clamp(o) && Inv(w, o) && Enabled(w, TimerDue(id), o)
    ensures Inv(Step(w, TimerDue(id), o), o)
    ensures Abstract(Step(w, TimerDue(id), o)) == SemaphoreStep(Abstract(w), TimerDue(id), o)
  {
    hide Fifo, Step, Counted, Answered, InTime, Abstract;
    if id in w.core.settled {
      LateTimer(w, id, o);
    } else {
      TimeoutStep(w, id, o);
      var w' := Step(w, TimerDue(id), o);
      TimeoutFifo(w, w', id, w'.callers[id]);
      TimeoutAnswers(w, w', id, o);
    }
    AbstractQueue(w);
    AbstractQueue(Step(w, TimerDue(id), o));
  }

  lemma AbstractQueue(w: World)
    ensures Abstract(w).queue == w.core.queue
  {}

  lemma TimeoutStep(w: World, id: nat, o: Options)
    requires Answered(w, o) && Enabled(w, TimerDue(id), o) && id !in w.core.settled
    ensures id in w.core.queue && NoRepeats(w.core.queue)
    ensures Step(w, TimerDue(id), o) ==
            w.(core := Core(w.core.active, Remove(w.core.queue, id), w.core.settled + {id}),
               callers := w.callers[id := w.callers[id].(phase := TimedOut, answeredAt := w.now)])
  {
    DropIsRemove(w.core.queue, id);
  }

  lemma TimeoutAnswers(w: World, w': World, id: nat, o: Options)
    requires Counted(w, o) && Answered(w, o) && InTime(w, o) && Enabled(w, TimerDue(id), o) && id !in w.core.settled
    requires w' == w.(core := Core(w.core.active, Remove(w.core.queue, id), w.core.settled + {id}),
                      callers := w.callers[id := w.callers[id].(phase := TimedOut, answeredAt := w.now)])
    ensures Counted(w', o) && Answered(w', o) && InTime(w', o) && Abstract(w').holders == Abstract(w).holders
  {
    hide Step, Fifo;
    RemoveMembers(w.core.queue, id);
    assert Abstract(w').holders == Abstract(w).holders;
  }

  /** The timer of a caller that already has its answer. */
  lemma LateTimer(w: World, id: nat, o: Options)
    requires Answered(w, o) && id in w.core.settled
    ensures Step(w, TimerDue(id), o) == w && Remove(w.core.queue, id) == w.core.queue
  {
    assert id !in w.core.queue;
    RemoveAbsent(w.core.queue, id);
  }

  lemma StepKeepsInv(w: World, ev: Event, o: Options)
    requires o == Clamp(o) && Inv(w, o) && Enabled(w, ev, o)
    ensures Inv(Step(w, ev, o), o)
    ensures Abstract(Step(w, ev, o)) == SemaphoreStep(Abstract(w), ev, o)
  {
    match ev
    case Arrive(id) =>
      if w.core.active < o.limit { EnterKeepsInv(w, id, o); }
      else if |w.core.queue| >= o.maxQueue { OverflowKeepsInv(w, id, o); }
      else { QueueKeepsInv(w, id, o); }
    case TaskEnds(id) =>
      if w.core.queue == [] { LastTaskKeepsInv(w, id, o); } else { NextTaskKeepsInv(w, id, o); }
    case TimerDue(id) => TimerKeepsInv(w, id, o);
    case Tick => assert Abstract(Step(w, ev, o)) == Abstract(w);
  }

  // ---------------------------------------------------------------- whole runs

  function Run(events: seq<Event>, o: Options): World {
    if events == [] then INITIAL else Step(Run(events[..|events| - 1], o), events[|events| - 1], o)
  }

  function SemaphoreRun(events: seq<Event>, o: Options): Semaphore {
    if events == [] then Semaphore({}, [])
    else SemaphoreStep(SemaphoreRun(events[..|events| - 1], o), events[|events| - 1], o)
  }

  ghost predicate Possible(events: seq<Event>, o: Options) {
    events == [] ||
    (Possible(events[..|events| - 1], o) && Enabled(Run(events[..|events| - 1], o), events[|events| - 1], o))
  }

  /** Over every interleaving the gate does what the semaphore does. */
  lemma {:induction false} GateRefinesSemaphore(events: seq<Event>, o: Options)
    requires o == Clamp(o) && Possible(events, o)
    ensures Inv(Run(events, o), o)
    ensures Abstract(Run(events, o)) == SemaphoreRun(events, o)
  {
    if events == [] {
      assert Abstract(INITIAL).holders == {};
    } else {
      GateRefinesSemaphore(events[..|events| - 1], o);
      StepKeepsInv(Run(events[..|events| - 1], o), events[|events| - 1], o);
    }
  }

  /** An answer once given is never replaced by another one: granted xor timed out, exactly once. */
  lemma OneAnswer(w: World, ev: Event, o: Options, id: nat)
    requires o == Clamp(o) && Inv(w, o) && Enabled(w, ev, o)
    requires id in w.callers && w.callers[id].phase != Waiting
    ensures var c, c' := w.callers[id], Step(w, ev, o).callers[id];
            c'.answeredAt == c.answeredAt &&
            (c'.phase == c.phase || (c.phase == Running && c'.phase == Ended))
  {
    if ev.TaskEnds? && w.core.queue != [] {
      assert w.core.queue[0] in w.core.queue;
    }
  }

  /** When every task has ended and no caller waits in vain, all permits are back. */
  lemma Quiescence(events: seq<Event>, o: Options)
    requires o == Clamp(o) && Possible(events, o)
    requires forall id :: id in Run(events, o).callers ==> Run(events, o).callers[id].phase != Running
    ensures Run(events, o).core.active == 0 && Run(events, o).core.queue == []
  {
    GateRefinesSemaphore(events, o);
    assert Abstract(Run(events, o)).holders == {};
  }
}
