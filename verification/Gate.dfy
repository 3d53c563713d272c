/**
 * src/libs/concurrency-gate.ts: the gate as a class over waiter objects, and its three operations as
 * functions over what those objects hold.
 */
module Gate {
  import opened Wrappers

  /** active, the queued waiters by number, and the waiters whose `settled` flag is up. */
  datatype Core = Core(active: int, queue: seq<nat>, settled: set<nat>)

  datatype Verdict = Entered | Overflow | Queued

  function Acquire(g: Core, id: nat, limit: int, maxQueue: int): (Core, Verdict) {
    if g.active < limit then (g.(active := g.active + 1), Entered)
    else if |g.queue| >= maxQueue then (g, Overflow)
    else (g.(queue := g.queue + [id]), Queued)
  }

  /** The waiter that is handed the permit, if any. */
  function Release(g: Core): (Core, Option<nat>)
    decreases |g.queue|
  {
    if g.queue == [] then (g.(active := g.active - 1), None)
    else if g.queue[0] in g.settled then Release(g.(queue := g.queue[1..]))
    else (Core(g.active, g.queue[1..], g.settled + {g.queue[0]}), Some(g.queue[0]))
  }

  /** indexOf and splice. */
  function Drop(queue: seq<nat>, id: nat): seq<nat> {
    if queue == [] then [] else if queue[0] == id then queue[1..] else [queue[0]] + Drop(queue[1..], id)
  }

  lemma {:induction false} DropAt(queue: seq<nat>, id: nat, k: nat)
    requires k <= |queue| && (forall i :: 0 <= i < k ==> queue[i] != id) && (k < |queue| ==> queue[k] == id)
    ensures Drop(queue, id) == if k < |queue| then queue[..k] + queue[k + 1..] else queue
  {
    if k > 0 {
      var rest := queue[1..];
      DropAt(rest, id, k - 1);
      assert [queue[0]] + rest == queue;
      assert [queue[0]] + rest[..k - 1] == queue[..k];
      if k < |queue| {
        assert rest[k..] == queue[k + 1..];
        assert [queue[0]] + (rest[..k - 1] + rest[k..]) == queue[..k] + queue[k + 1..];
      }
    }
  }

  /** True when the caller is rejected with `timeout`. */
  function FireTimer(g: Core, id: nat): (Core, bool) {
    if id in g.settled then (g, false)
    else (Core(g.active, Drop(g.queue, id), g.settled + {id}), true)
  }

  class Waiter {
    const id: nat
    var settled: bool
    var granted: bool
    var failed: bool

    constructor (id: nat)
      ensures this.id == id && !settled && !granted && !failed
    {
      this.id, settled, granted, failed := id, false, false, false;
    }
  }

  lemma RemovedApart<T>(s: seq<T>, index: nat)
    requires index < |s|
    ensures forall x :: x in s[..index] + s[index + 1..] ==> x in s
    ensures (forall i, j :: 0 <= i < j < |s| ==> s[i] != s[j]) ==>
              var r := s[..index] + s[index + 1..];
              forall i, j :: 0 <= i < j < |r| ==> r[i] != r[j]
  {}

  class ConcurrencyGate {
    const limit: int
    const maxQueue: int
    const acquireTimeoutMs: int       // what the timers are set to
    var waiters: seq<Waiter>
    var active: int
    ghost var all: set<Waiter>        // every waiter ever created: its timer may still hold it

    constructor (limit: int, maxQueue: int, acquireTimeoutMs: int)
      ensures this.limit == (if limit < 1 then 1 else limit)
      ensures this.maxQueue == (if maxQueue < 0 then 0 else maxQueue)
      ensures this.acquireTimeoutMs == (if acquireTimeoutMs < 1 then 1 else acquireTimeoutMs)
      ensures Valid() && State() == Core(0, [], {}) && all == {}
    {
      this.limit := if limit < 1 then 1 else limit;
      this.maxQueue := if maxQueue < 0 then 0 else maxQueue;
      this.acquireTimeoutMs := if acquireTimeoutMs < 1 then 1 else acquireTimeoutMs;
      waiters, active, all := [], 0, {};
    }

    /** Waiters have different numbers, none is queued twice, and a settled one heard exactly one answer. */
    ghost predicate Valid()
      reads this, all
    {
      && (forall i :: 0 <= i < |waiters| ==> waiters[i] in all)
      && (forall i, j :: 0 <= i < j < |waiters| ==> waiters[i] != waiters[j])
      && (forall v, w :: v in all && w in all && v.id == w.id ==> v == w)
      && (forall w :: w in all ==> if w.settled then w.granted != w.failed else !w.granted && !w.failed)
    }

    ghost function Ids(ws: seq<Waiter>): (ids: seq<nat>)
      ensures |ids| == |ws| && forall i :: 0 <= i < |ws| ==> ids[i] == ws[i].id
    {
      seq(|ws|, i requires 0 <= i < |ws| => ws[i].id)
    }

    ghost function State(): Core
      reads this, all
    {
      Core(active, Ids(waiters), set w | w in all && w.settled :: w.id)
    }

    /** `waiter` is null unless the caller has to wait for its answer. */
    method AcquirePermit(id: nat) returns (verdict: Verdict, waiter: Waiter?)
      requires Valid() && forall w :: w in all ==> w.id != id
      modifies this
      ensures Valid()
      ensures (State(), verdict) == Acquire(old(State()), id, limit, maxQueue)
      ensures if verdict == Queued then waiter != null && fresh(waiter) && waiter.id == id && all == old(all) + {waiter}
              else waiter == null && all == old(all)
    {
      if active < limit {
        active := active + 1;
        assert State() == old(State()).(active := active);
        return Entered, null;
      }
      if |waiters| >= maxQueue {
        return Overflow, null;
      }
      var w := new Waiter(id);
      waiters := waiters + [w];
      all := all + {w};
      assert State() == old(State()).(queue := old(State()).queue + [id]);
      return Queued, w;
    }

    method ReleasePermit() returns (next: Waiter?)
      requires Valid()
      modifies this, all
      ensures Valid() && all == old(all)
      ensures (State(), if next == null then None else Some(next.id)) == Release(old(State()))
      ensures next != null ==> next in old(waiters) && !old(next.settled) && next.granted
      ensures forall w :: w in all && w != next ==> w.settled == old(w.settled) && w.granted == old(w.granted)
    {
      ghost var start := State();
      while |waiters| > 0
        invariant Valid() && all == old(all) && active == old(active)
        invariant forall w :: w in waiters ==> w in old(waiters)
        invariant forall w :: w in all ==>
                    w.settled == old(w.settled) && w.granted == old(w.granted) && w.failed == old(w.failed)
        invariant Release(State()) == Release(start)
        decreases |waiters|
      {
        var w := waiters[0];
        ghost var before := State();
        assert before.queue[0] == w.id && (w.id in before.settled <==> w.settled);
        waiters := waiters[1..];
        assert Ids(waiters) == before.queue[1..];
        if !w.settled {
          w.settled, w.granted := true, true;
          assert State().settled == before.settled + {w.id};
          return w;
        }
        assert State() == before.(queue := before.queue[1..]);
      }
      ghost var last := State();
      assert last.queue == [];
      active := active - 1;
      assert State() == last.(active := active);
      next := null;
    }

    method DropWaiter(w: Waiter)
      requires Valid() && w in all
      modifies this`waiters
      ensures Valid() && State() == old(State()).(queue := Drop(old(State()).queue, w.id))
    {
      var index := 0;
      ghost var ids := Ids(waiters);
      while index < |waiters| && waiters[index] != w
        invariant 0 <= index <= |waiters|
        invariant forall i :: 0 <= i < index ==> waiters[i] != w
      {
        index := index + 1;
      }
      DropAt(ids, w.id, index);
      if index < |waiters| {
        ghost var before := waiters;
        waiters := waiters[..index] + waiters[index + 1..];
        assert Ids(waiters) == ids[..index] + ids[index + 1..];
        RemovedApart(before, index);
      }
      assert Ids(waiters) == Drop(ids, w.id);
    }

    /** The callback of setTimeout. */
    method TimerFires(w: Waiter)
      requires Valid() && w in all
      modifies this, w
      ensures Valid() && all == old(all)
      ensures (State(), !old(w.settled)) == FireTimer(old(State()), w.id)
      ensures !old(w.settled) ==> w.failed && !w.granted
      ensures old(w.settled) ==> w.failed == old(w.failed) && w.granted == old(w.granted)
    {
      ghost var start := State();
      assert w.id in start.settled <==> w.settled;
      if w.settled {
        return;
      }
      w.settled := true;
      w.failed := true;
      assert State() == start.(settled := start.settled + {w.id});
      DropWaiter(w);
    }
  }
}
