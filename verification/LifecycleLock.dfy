/** The lifecycle lock as the object it is: each method is one critical section under
    `state`, and takes the lock through the step of the transition system it names. */
module LifecycleLock {
  import opened Wrappers
  import opened Lifecycle
  import opened LifecycleInvariant

  class PodLifecycleLock {
    const key: Key
    var generation: nat
    var deleting: int
    var nextTask: TaskId
    var tasks: map<TaskId, ActorId>
    var owner: Option<TaskId>
    var lease: Option<ActorId>
    var spawning: Option<ActorId>

    function View(): Lock
      reads this
    {
      Lock(key, generation, deleting, nextTask, tasks, owner, lease, spawning)
    }

    constructor (key: Key)
      ensures View() == Lock(key, 0, 0, 0, map[], None, None, None)
    {
      this.key := key;
      generation, deleting, nextTask, tasks, owner, lease, spawning := 0, 0, 0, map[], None, None, None;
    }

    /** `queue`: the generation of the request, or the cancelled error. */
    method Queue(ghost s: State, ghost h: ActorId, ghost a: ActorId) returns (r: Option<nat>)
      requires CallerReady(s, h, a) && LockOf(s, h) == View()
      ensures r.Some? <==> Enabled(s, Step.Queue(h, a))
      ensures r.Some? ==> EffectOf(s, Step.Queue(h, a)) == Effect(a, Request(s.actors[h].lock, r.value, Queued), View())
    {
      if deleting != 0 {
        return None;
      }
      r := Some(generation);
    }

    /** `spawn` up to the runtime's spawn, with `state` still held. */
    method SpawnStart(ghost s: State, ghost h: ActorId, a: ActorId) returns (id: Option<TaskId>)
      requires CallerReady(s, h, a) && LockOf(s, h) == View()
      modifies this
      ensures id.Some? <==> Enabled(s, Step.SpawnStart(h, a))
      ensures id.Some? ==> EffectOf(s, Step.SpawnStart(h, a)) == Effect(a, Task(s.actors[h].lock, id.value, Waiting, false), View())
      ensures id.None? ==> View() == old(View())
    {
      if deleting != 0 {
        return None;
      }
      id := Some(nextTask);
      nextTask := nextTask + 1;
      spawning := Some(a);
    }

    /** The rest of `spawn`: register the handle and release `state`. */
    method SpawnRegister(ghost s: State, id: TaskId, a: ActorId)
      requires Enabled(s, Step.SpawnRegister(a)) && LockOf(s, a) == View() && s.actors[a].id == id
      modifies this
      ensures EffectOf(s, Step.SpawnRegister(a)) == Effect(a, s.actors[a], View())
    {
      tasks := tasks[id := a];
      spawning := None;
    }

    /** The spawned task with the lease in hand. */
    method Own(ghost s: State, id: TaskId, ghost a: ActorId)
      requires Enabled(s, TaskOwn(a)) && LockOf(s, a) == View() && s.actors[a].id == id
      modifies this
      ensures EffectOf(s, TaskOwn(a)).k == View()
    {
      owner := Some(id);
    }

    /** `StartupCompletion::drop`. */
    method Complete(ghost s: State, id: TaskId, ghost a: ActorId)
      requires Enabled(s, TaskComplete(a)) && LockOf(s, a) == View() && s.actors[a].id == id
      modifies this
      ensures EffectOf(s, TaskComplete(a)).k == View()
    {
      tasks := tasks - {id};
      if owner == Some(id) {
        owner := None;
      }
    }

    /** The first section of `acquire_for_delete`: the drained task handles. */
    method RegisterDelete(ghost s: State, ghost h: ActorId, ghost a: ActorId) returns (drained: set<ActorId>)
      requires Enabled(s, DeleteRegister(h, a)) && LockOf(s, h) == View()
      modifies this
      ensures EffectOf(s, DeleteRegister(h, a)) == Effect(a, Delete(s.actors[h].lock, drained, drained, Draining), View())
    {
      deleting := deleting + 1;
      generation := generation + 1;
      drained := {};
      ghost var all := tasks;
      while tasks != map[]
        invariant tasks.Keys <= all.Keys && forall t :: t in tasks ==> tasks[t] == all[t]
        invariant drained == set t | t in all && t !in tasks :: all[t]
        invariant View() == old(View()).(deleting := old(deleting) + 1, generation := old(generation) + 1, tasks := tasks)
        decreases tasks.Keys
      {
        var t :| t in tasks;
        drained := drained + {tasks[t]};
        tasks := tasks - {t};
      }
      assert all == LockOf(s, h).tasks;
      assert drained == Registered(s, s.actors[h].lock);
    }

    /** The re-check of `PodLifecycleRequest::acquire`. */
    method Recheck(ghost s: State, queued: nat, ghost a: ActorId) returns (granted: bool)
      requires Enabled(s, RequestCheck(a)) && LockOf(s, a) == View() && s.actors[a].generation == queued
      ensures EffectOf(s, RequestCheck(a)) == Effect(a, s.actors[a].(rphase := if granted then Granted else Refused), View())
    {
      granted := !(generation != queued || deleting != 0);
    }

    /** The drop of a delete guard; the unsigned decrement cannot underflow. */
    method DropDeleteGuard(ghost s: State, ghost a: ActorId)
      requires Inv(s) && Enabled(s, DeleteUncount(a)) && LockOf(s, a) == View()
      modifies this
      ensures EffectOf(s, DeleteUncount(a)).k == View() && deleting >= 0
    {
      assert deleting > 0 by {
        assert a in InFlightDeletes(s, s.actors[a].lock);
      }
      deleting := deleting - 1;
    }
  }
}
