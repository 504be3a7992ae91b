/** The inductive invariant of the lifecycle lock, one conjunct at a time. */
module LifecycleInvariant {
  import opened Wrappers
  import opened Lifecycle

  /** Every actor names an existing lock, and the weak map leads to every lock that
      still has a strong reference: one live lock object per key. */
  ghost predicate WeakMap(s: State) {
    && (forall a :: a in s.actors ==> s.actors[a].lock in s.locks)
    && (forall k :: k in s.weak ==> s.weak[k] in s.locks && s.locks[s.weak[k]].key == k)
    && (forall a :: a in s.actors && s.actors[a].HasRef() ==>
          var key := s.locks[s.actors[a].lock].key;
          key in s.weak && s.weak[key] == s.actors[a].lock)
  }

  /** The lease field names exactly the holding actor. */
  ghost predicate Leases(s: State) {
    && (forall a :: a in s.actors && s.actors[a].Holds() ==>
          s.actors[a].lock in s.locks && s.locks[s.actors[a].lock].lease == Some(a))
    && (forall l :: l in s.locks && s.locks[l].lease.Some? ==>
          var a := s.locks[l].lease.value;
          a in s.actors && s.actors[a].lock == l && s.actors[a].Holds())
  }

  ghost predicate SameTask(x: Actor, y: Actor) {
    x.Task? && y.Task? && x.lock == y.lock && x.id == y.id
  }

  /** Task ids are never reused, and `owner` names a task that is not done. */
  ghost predicate TaskIds(s: State) {
    && (forall a :: a in s.actors && s.actors[a].Task? ==>
          s.actors[a].lock in s.locks && s.actors[a].id < s.locks[s.actors[a].lock].nextTask)
    && (forall a, b :: a in s.actors && b in s.actors && SameTask(s.actors[a], s.actors[b]) ==> a == b)
  }

  ghost predicate Owners(s: State) {
    && (forall a :: a in s.actors && s.actors[a].Task? && s.actors[a].tphase == Running ==>
          s.actors[a].lock in s.locks && s.locks[s.actors[a].lock].owner == Some(s.actors[a].id))
    && (forall a :: IsTask(s, a) && LockOf(s, a).owner == Some(s.actors[a].id) ==> s.actors[a].LiveTask())
    && (forall a :: a in s.actors && s.actors[a].Task? ==> (s.actors[a].done <==> !s.actors[a].LiveTask()))
    && (forall l :: l in s.locks && s.locks[l].owner.Some? ==> s.locks[l].owner.value < s.locks[l].nextTask)
  }

  ghost predicate IsLiveOf(s: State, a: ActorId, l: LockId) {
    a in s.actors && s.actors[a].LiveTask() && s.actors[a].lock == l
  }

  /** `tasks` and `spawning` hold live tasks of their own lock only. */
  ghost predicate Registry(s: State) {
    && (forall l, t :: l in s.locks && t in s.locks[l].tasks ==>
          IsLiveOf(s, s.locks[l].tasks[t], l) && s.actors[s.locks[l].tasks[t]].id == t)
    && (forall l :: l in s.locks && s.locks[l].spawning.Some? ==>
          var a := s.locks[l].spawning.value;
          IsLiveOf(s, a, l) && s.actors[a].id !in s.locks[l].tasks)
    && (forall l :: l in s.locks && s.locks[l].deleting != 0 ==>
          s.locks[l].tasks == map[] && s.locks[l].spawning.None?)
  }

  ghost predicate IsRegistered(s: State, a: ActorId) {
    IsTask(s, a) && s.actors[a].id in LockOf(s, a).tasks && LockOf(s, a).tasks[s.actors[a].id] == a
  }

  ghost predicate IsSpawning(s: State, a: ActorId) {
    IsActor(s, a) && LockOf(s, a).spawning == Some(a)
  }

  /** `d` is a delete on `a`'s lock that still waits for `a`. */
  ghost predicate Awaits(s: State, d: ActorId, a: ActorId) {
    d in s.actors && s.actors[d].Delete? && a in s.actors[d].awaiting
  }

  /** A drained task belongs to the delete's lock, has left the registry, and is
      still awaited unless it is done. */
  ghost predicate DrainedTask(s: State, d: ActorId, t: ActorId)
    requires d in s.actors && s.actors[d].Delete?
  {
    && IsTask(s, t) && s.actors[t].lock == s.actors[d].lock
    && !IsRegistered(s, t) && !IsSpawning(s, t)
    && (s.actors[t].LiveTask() ==> t in s.actors[d].awaiting)
  }

  /** What the drained sets hold. */
  ghost predicate Drained(s: State) {
    && (forall d, t :: d in s.actors && s.actors[d].Delete? && t in s.actors[d].drained ==> DrainedTask(s, d, t))
    && (forall d :: d in s.actors && s.actors[d].Delete? ==>
          s.actors[d].awaiting <= s.actors[d].drained
          && (s.actors[d].dphase != Draining ==> s.actors[d].awaiting == {}))
    && (forall d, e :: d in s.actors && e in s.actors && s.actors[d].Delete? && s.actors[e].Delete? && d != e ==>
          s.actors[d].drained !! s.actors[e].drained)
  }

  /** Every live task is accounted for. */
  ghost predicate Accounted(s: State) {
    forall a :: a in s.actors && s.actors[a].LiveTask() ==>
      IsRegistered(s, a) || IsSpawning(s, a) || exists d :: Awaits(s, d, a)
  }

  ghost predicate Counts(s: State) {
    forall l :: l in s.locks ==>
      s.locks[l].generation == |Deletes(s, l)| && s.locks[l].deleting == |InFlightDeletes(s, l)|
  }

  ghost predicate Inv(s: State) {
    WeakMap(s) && Leases(s) && TaskIds(s) && Owners(s) && Registry(s) && Drained(s) && Accounted(s) && Counts(s)
  }

  // ---- what one effect must satisfy locally for each conjunct to survive ----

  ghost predicate Shape(s: State, e: Effect) {
    && e.x.lock in s.locks
    && e.k.key == s.locks[e.x.lock].key
    && (e.a in s.actors ==> s.actors[e.a].lock == e.x.lock)
    && (e.x.HasRef() ==> e.k.key in s.weak && s.weak[e.k.key] == e.x.lock)
  }

  lemma EffectShape(s: State, step: Step)
    requires WeakMap(s) && Enabled(s, step) && !step.ForPod?
    ensures Shape(s, EffectOf(s, step))
  {
    hide Enabled, EffectOf;
    EffectPlace(s, step);
    if EffectOf(s, step).x.HasRef() {
      EffectRef(s, step);
    }
  }

  lemma EffectPlace(s: State, step: Step)
    requires Enabled(s, step) && !step.ForPod?
    ensures var e := EffectOf(s, step);
            && e.x.lock in s.locks
            && e.k.key == s.locks[e.x.lock].key
            && (e.a in s.actors ==> s.actors[e.a].lock == e.x.lock)
  {
  }

  /** A step's actor either had its reference before or is given one by a live caller. */
  lemma EffectRef(s: State, step: Step)
    requires Enabled(s, step) && !step.ForPod? && EffectOf(s, step).x.HasRef()
    ensures exists b :: b in s.actors && s.actors[b].HasRef() && s.actors[b].lock == EffectOf(s, step).x.lock
  {
    var e := EffectOf(s, step);
    var b := if step.Queue? || step.SpawnStart? || step.DeleteRegister? then step.h else e.a;
    assert b in s.actors && s.actors[b].HasRef() && s.actors[b].lock == e.x.lock;
  }

  lemma WithWeakMap(s: State, e: Effect)
    requires WeakMap(s) && Shape(s, e)
    ensures WeakMap(With(s, e))
  {
  }

  ghost predicate LocalLease(s: State, e: Effect)
    requires Shape(s, e)
  {
    var was := s.locks[e.x.lock].lease;
    && (e.x.Holds() <==> e.k.lease == Some(e.a))
    && (e.k.lease == was || (was.None? && e.k.lease == Some(e.a)) || (was == Some(e.a) && e.k.lease.None?))
  }

  /** The lease facts about one actor and one lock. */
  ghost predicate LeaseAt(s: State, a: ActorId, l: LockId) {
    && (a in s.actors && s.actors[a].Holds() && s.actors[a].lock in s.locks ==> s.locks[s.actors[a].lock].lease == Some(a))
    && (l in s.locks && s.locks[l].lease == Some(a) ==> a in s.actors && s.actors[a].Holds())
  }

  lemma EffectLease(s: State, step: Step)
    requires Enabled(s, step) && !step.ForPod? && Shape(s, EffectOf(s, step))
    requires LeaseAt(s, EffectOf(s, step).a, EffectOf(s, step).x.lock)
    ensures LocalLease(s, EffectOf(s, step))
  {
  }

  lemma WithLeases(s: State, e: Effect)
    requires Leases(s) && Shape(s, e) && LocalLease(s, e)
    ensures Leases(With(s, e))
  {
  }

  ghost predicate LocalIds(s: State, e: Effect)
    requires Shape(s, e)
  {
    var next := s.locks[e.x.lock].nextTask;
    && next <= e.k.nextTask
    && (e.x.Task? ==> e.x.id < e.k.nextTask)
    && (e.x.Task? && e.a in s.actors ==> SameTask(e.x, s.actors[e.a]))
    && (e.x.Task? && e.a !in s.actors ==> next <= e.x.id)
  }

  lemma EffectIds(s: State, step: Step)
    requires Enabled(s, step) && !step.ForPod? && Shape(s, EffectOf(s, step))
    requires var a := EffectOf(s, step).a; IsTask(s, a) ==> s.actors[a].id < LockOf(s, a).nextTask
    ensures LocalIds(s, EffectOf(s, step))
  {
  }

  lemma WithTaskIds(s: State, e: Effect)
    requires TaskIds(s) && Shape(s, e) && LocalIds(s, e)
    ensures TaskIds(With(s, e))
  {
  }

  ghost predicate LocalOwner(s: State, e: Effect)
    requires Shape(s, e)
  {
    var was := s.locks[e.x.lock];
    && (e.x.Task? ==> (e.x.done <==> !e.x.LiveTask()))
    && (e.x.Task? && e.x.tphase == Running ==> e.k.owner == Some(e.x.id))
    && (e.x.Task? && e.k.owner == Some(e.x.id) ==> e.x.LiveTask())
    && (e.k.owner == was.owner
        || (e.x.Task? && e.k.owner == Some(e.x.id) && was.lease == Some(e.a))
        || (e.x.Task? && e.k.owner.None? && was.owner == Some(e.x.id)))
    && (e.k.owner.Some? ==> e.k.owner.value < e.k.nextTask)
  }

  /** The owner facts about one actor and its lock. */
  ghost predicate OwnerAt(s: State, a: ActorId, l: LockId) {
    && (IsTask(s, a) ==>
          && (s.actors[a].done <==> !s.actors[a].LiveTask())
          && (s.actors[a].tphase == Running ==> LockOf(s, a).owner == Some(s.actors[a].id))
          && (LockOf(s, a).owner == Some(s.actors[a].id) ==> s.actors[a].LiveTask())
          && s.actors[a].id < LockOf(s, a).nextTask)
    && (l in s.locks && s.locks[l].owner.Some? ==> s.locks[l].owner.value < s.locks[l].nextTask)
  }

  lemma EffectOwner(s: State, step: Step)
    requires Enabled(s, step) && !step.ForPod? && Shape(s, EffectOf(s, step))
    requires OwnerAt(s, EffectOf(s, step).a, EffectOf(s, step).x.lock)
    requires LeaseAt(s, EffectOf(s, step).a, EffectOf(s, step).x.lock)
    ensures LocalOwner(s, EffectOf(s, step))
  {
  }

  lemma WithOwners(s: State, e: Effect)
    requires WeakMap(s) && Leases(s) && TaskIds(s) && Owners(s)
    requires Shape(s, e) && LocalIds(s, e) && LocalOwner(s, e)
    ensures Owners(With(s, e))
  {
    hide Leases, TaskIds, Shape, LocalIds, LocalOwner;
    var s' := With(s, e);
    forall a | IsTask(s', a)
      ensures s'.actors[a].tphase == Running ==> LockOf(s', a).owner == Some(s'.actors[a].id)
      ensures LockOf(s', a).owner == Some(s'.actors[a].id) ==> s'.actors[a].LiveTask()
      ensures s'.actors[a].done <==> !s'.actors[a].LiveTask()
    {
      WithOwnerAt(s, e, a);
    }
    WithOwnerBound(s, e);
  }

  lemma WithOwnerAt(s: State, e: Effect, a: ActorId)
    requires WeakMap(s) && Leases(s) && TaskIds(s) && Owners(s)
    requires Shape(s, e) && LocalIds(s, e) && LocalOwner(s, e) && IsTask(With(s, e), a)
    ensures var s' := With(s, e);
            && (s'.actors[a].tphase == Running ==> LockOf(s', a).owner == Some(s'.actors[a].id))
            && (LockOf(s', a).owner == Some(s'.actors[a].id) ==> s'.actors[a].LiveTask())
            && (s'.actors[a].done <==> !s'.actors[a].LiveTask())
  {
    if a != e.a && s.actors[a].tphase == Running {
      assert s.actors[a].Holds();
    }
  }

  lemma WithOwnerBound(s: State, e: Effect)
    requires WeakMap(s) && Owners(s) && Shape(s, e) && LocalOwner(s, e)
    ensures var s' := With(s, e);
            && (forall a :: a in s'.actors ==> s'.actors[a].lock in s'.locks)
            && (forall l :: l in s'.locks && s'.locks[l].owner.Some? ==> s'.locks[l].owner.value < s'.locks[l].nextTask)
  {
  }

  ghost predicate LocalRegistry(s: State, e: Effect)
    requires Shape(s, e)
  {
    (e.k.deleting != 0 ==> e.k.tasks == map[] && e.k.spawning.None?) && LocalTasks(s, e) && LocalSpawning(s, e)
  }

  ghost predicate LocalTasks(s: State, e: Effect)
    requires Shape(s, e)
  {
    var was := s.locks[e.x.lock];
    forall t :: t in e.k.tasks ==>
      if e.k.tasks[t] == e.a then
        e.x.LiveTask() && e.x.id == t && (IsRegistered(s, e.a) || IsSpawning(s, e.a))
      else
        t in was.tasks && was.tasks[t] == e.k.tasks[t]
  }

  ghost predicate LocalSpawning(s: State, e: Effect)
    requires Shape(s, e)
  {
    var was := s.locks[e.x.lock];
    && (e.k.spawning.Some? ==>
          if e.k.spawning == Some(e.a) then
            e.x.LiveTask() && e.x.id !in e.k.tasks && (IsSpawning(s, e.a) || e.a !in s.actors)
          else
            e.k.spawning == was.spawning && e.k.tasks.Keys <= was.tasks.Keys)
  }

  /** The registry facts about one actor and its lock. */
  ghost predicate RegistryAt(s: State, a: ActorId, l: LockId) {
    l in s.locks ==>
      && (forall t :: t in s.locks[l].tasks ==> t < s.locks[l].nextTask)
      && (forall t :: t in s.locks[l].tasks && s.locks[l].tasks[t] == a ==> IsLiveOf(s, a, l) && s.actors[a].id == t)
      && (s.locks[l].spawning.Some? ==>
            var b := s.locks[l].spawning.value;
            IsLiveOf(s, b, l) && s.actors[b].id !in s.locks[l].tasks)
      && (s.locks[l].deleting != 0 ==> s.locks[l].tasks == map[] && s.locks[l].spawning.None?)
      && (a in s.actors && s.actors[a].InFlight() && s.actors[a].lock == l ==> s.locks[l].deleting > 0)
  }

  lemma EffectRegistry(s: State, step: Step)
    requires Enabled(s, step) && !step.ForPod? && Shape(s, EffectOf(s, step))
    requires RegistryAt(s, EffectOf(s, step).a, EffectOf(s, step).x.lock)
    ensures LocalRegistry(s, EffectOf(s, step))
  {
    EffectTasks(s, step);
    EffectSpawning(s, step);
    hide LocalTasks, LocalSpawning;
  }

  lemma EffectTasks(s: State, step: Step)
    requires Enabled(s, step) && !step.ForPod? && Shape(s, EffectOf(s, step))
    requires RegistryAt(s, EffectOf(s, step).a, EffectOf(s, step).x.lock)
    ensures LocalTasks(s, EffectOf(s, step))
  {
  }

  lemma EffectSpawning(s: State, step: Step)
    requires Enabled(s, step) && !step.ForPod? && Shape(s, EffectOf(s, step))
    requires RegistryAt(s, EffectOf(s, step).a, EffectOf(s, step).x.lock)
    ensures LocalSpawning(s, EffectOf(s, step))
  {
  }

  lemma WithRegistry(s: State, e: Effect)
    requires Registry(s) && Shape(s, e) && LocalRegistry(s, e)
    ensures Registry(With(s, e))
  {
  }

  ghost predicate LocalDrained(s: State, e: Effect)
    requires Shape(s, e)
  {
    && (e.a in s.actors ==>
          var y := s.actors[e.a];
          && (e.x.Task? <==> y.Task?)
          && (e.x.Delete? <==> y.Delete?)
          && (e.x.Task? ==> e.x.id == y.id && (e.x.LiveTask() ==> y.LiveTask()))
          && (e.x.Delete? ==>
                && e.x.drained == y.drained
                && e.x.awaiting <= y.awaiting
                && (forall t :: t in y.awaiting && t !in e.x.awaiting ==> IsTask(s, t) && !s.actors[t].LiveTask())))
    && (e.x.Delete? && e.a !in s.actors ==>
          e.x.drained == e.x.awaiting == Registered(s, e.x.lock) && e.k.tasks == map[] && e.k.spawning.None?)
    && (e.x.Delete? && e.x.dphase != Draining ==> e.x.awaiting == {})
  }

  lemma EffectDrained(s: State, step: Step)
    requires Enabled(s, step) && !step.ForPod? && Shape(s, EffectOf(s, step))
    requires forall t :: IsTask(s, t) ==> (s.actors[t].done <==> !s.actors[t].LiveTask())
    requires var a := EffectOf(s, step).a;
             IsDelete(s, a) && s.actors[a].dphase != Draining ==> s.actors[a].awaiting == {}
    ensures LocalDrained(s, EffectOf(s, step))
  {
  }

  lemma RegisteredIs(s: State, l: LockId, t: ActorId)
    requires Registry(s) && l in s.locks
    ensures t in Registered(s, l) <==> IsRegistered(s, t) && s.actors[t].lock == l
  {
    if t in Registered(s, l) {
      var id :| id in s.locks[l].tasks && s.locks[l].tasks[id] == t;
      assert IsLiveOf(s, t, l) && s.actors[t].id == id;
    }
  }

  lemma WithDrainedTask(s: State, e: Effect, d: ActorId, t: ActorId)
    requires WeakMap(s) && Registry(s) && Shape(s, e) && LocalRegistry(s, e) && LocalDrained(s, e)
    requires d in With(s, e).actors && With(s, e).actors[d].Delete? && t in With(s, e).actors[d].drained
    requires d in s.actors ==> s.actors[d].Delete? && DrainedTask(s, d, t)
    ensures DrainedTask(With(s, e), d, t)
  {
    if d !in s.actors {
      RegisteredIs(s, e.x.lock, t);
    }
  }

  lemma WithDisjoint(s: State, e: Effect, d: ActorId, f: ActorId)
    requires WeakMap(s) && Registry(s) && Drained(s)
    requires Shape(s, e) && LocalDrained(s, e)
    requires d in s.actors && f in With(s, e).actors && d != f
    requires With(s, e).actors[d].Delete? && With(s, e).actors[f].Delete?
    ensures With(s, e).actors[d].drained !! With(s, e).actors[f].drained
  {
    var s' := With(s, e);
    forall t | t in s'.actors[d].drained ensures t !in s'.actors[f].drained {
      assert DrainedTask(s, d, t);
      RegisteredIs(s, e.x.lock, t);
    }
  }

  lemma WithDrained(s: State, e: Effect)
    requires WeakMap(s) && Registry(s) && Drained(s)
    requires Shape(s, e) && LocalRegistry(s, e) && LocalDrained(s, e)
    ensures Drained(With(s, e))
  {
    var s' := With(s, e);
    forall d, t | d in s'.actors && s'.actors[d].Delete? && t in s'.actors[d].drained
      ensures DrainedTask(s', d, t)
    {
      WithDrainedTask(s, e, d, t);
    }
    forall d, f | d in s'.actors && f in s'.actors && s'.actors[d].Delete? && s'.actors[f].Delete? && d != f
      ensures s'.actors[d].drained !! s'.actors[f].drained
    {
      if d in s.actors {
        WithDisjoint(s, e, d, f);
      } else {
        WithDisjoint(s, e, f, d);
      }
    }
  }

  /** Tasks leave `tasks` and `spawning` only into a registration, a drain or their own completion. */
  ghost predicate LocalAccount(s: State, e: Effect)
    requires Shape(s, e)
  {
    LocalStay(s, e) && LocalLeave(s, e)
  }

  ghost predicate LocalStay(s: State, e: Effect)
    requires Shape(s, e)
  {
    var was := s.locks[e.x.lock];
    && (e.x.LiveTask() && e.a !in s.actors ==> e.k.spawning == Some(e.a))
    && (e.x.LiveTask() && IsRegistered(s, e.a) ==> e.x.id in e.k.tasks && e.k.tasks[e.x.id] == e.a)
    && (e.x.LiveTask() && IsSpawning(s, e.a) ==>
          e.k.spawning == Some(e.a) || (e.x.id in e.k.tasks && e.k.tasks[e.x.id] == e.a))
    && (was.spawning.Some? && was.spawning != Some(e.a) ==> e.k.spawning == was.spawning)
  }

  ghost predicate LocalLeave(s: State, e: Effect)
    requires Shape(s, e)
  {
    var was := s.locks[e.x.lock].tasks;
    forall t :: t in was && was[t] != e.a ==>
      (t in e.k.tasks && e.k.tasks[t] == was[t]) || (e.x.Delete? && was[t] in e.x.awaiting)
  }

  lemma EffectAccount(s: State, step: Step)
    requires Enabled(s, step) && !step.ForPod? && Shape(s, EffectOf(s, step))
    requires RegistryAt(s, EffectOf(s, step).a, EffectOf(s, step).x.lock)
    requires var a := EffectOf(s, step).a;
             IsTask(s, a) ==> forall t :: t in LockOf(s, a).tasks && t == s.actors[a].id ==> LockOf(s, a).tasks[t] == a
    ensures LocalAccount(s, EffectOf(s, step))
  {
    EffectStay(s, step);
    EffectLeave(s, step);
    hide LocalStay, LocalLeave;
  }

  lemma EffectStay(s: State, step: Step)
    requires Enabled(s, step) && !step.ForPod? && Shape(s, EffectOf(s, step))
    requires RegistryAt(s, EffectOf(s, step).a, EffectOf(s, step).x.lock)
    ensures LocalStay(s, EffectOf(s, step))
  {
  }

  lemma EffectLeave(s: State, step: Step)
    requires Enabled(s, step) && !step.ForPod? && Shape(s, EffectOf(s, step))
    requires var a := EffectOf(s, step).a;
             IsTask(s, a) ==> forall t :: t in LockOf(s, a).tasks && t == s.actors[a].id ==> LockOf(s, a).tasks[t] == a
    ensures LocalLeave(s, EffectOf(s, step))
  {
  }

  lemma WithAccounted(s: State, e: Effect)
    requires WeakMap(s) && Registry(s) && Drained(s) && Accounted(s)
    requires Shape(s, e) && LocalRegistry(s, e) && LocalDrained(s, e) && LocalAccount(s, e)
    ensures Accounted(With(s, e))
  {
    var s' := With(s, e);
    forall b | b in s'.actors && s'.actors[b].LiveTask()
      ensures IsRegistered(s', b) || IsSpawning(s', b) || exists d :: Awaits(s', d, b)
    {
      hide Shape, Registry, Drained, LocalRegistry, LocalDrained, LocalAccount, IsRegistered, IsSpawning, Awaits, With;
      if b in s.actors && !IsRegistered(s, b) && !IsSpawning(s, b) {
        AwaitedStays(s, e, b);
      } else {
        RegisteredStays(s, e, b);
      }
    }
  }

  lemma AwaitedStays(s: State, e: Effect, b: ActorId)
    requires WeakMap(s) && Drained(s) && Accounted(s) && Shape(s, e) && LocalDrained(s, e)
    requires b in s.actors && !IsRegistered(s, b) && !IsSpawning(s, b) && With(s, e).actors[b].LiveTask()
    ensures exists d :: Awaits(With(s, e), d, b)
  {
    var d :| Awaits(s, d, b);
    assert DrainedTask(s, d, b);
    assert Awaits(With(s, e), d, b);
  }

  lemma RegisteredStays(s: State, e: Effect, b: ActorId)
    requires WeakMap(s) && Registry(s) && Shape(s, e) && LocalDrained(s, e) && LocalAccount(s, e)
    requires b in s.actors ==> IsRegistered(s, b) || IsSpawning(s, b)
    requires b in With(s, e).actors && With(s, e).actors[b].LiveTask()
    ensures var s' := With(s, e); IsRegistered(s', b) || IsSpawning(s', b) || exists d :: Awaits(s', d, b)
  {
    if b != e.a && IsRegistered(s, b) && !IsRegistered(With(s, e), b) {
      assert Awaits(With(s, e), e.a, b);
    }
  }

  ghost predicate LocalCounts(s: State, e: Effect)
    requires Shape(s, e)
  {
    var was := s.locks[e.x.lock];
    && (e.a in s.actors ==> (e.x.Delete? <==> s.actors[e.a].Delete?))
    && e.k.generation == was.generation + (if e.x.Delete? && e.a !in s.actors then 1 else 0)
    && e.k.deleting == was.deleting + (if e.x.InFlight() then 1 else 0)
                       - (if e.a in s.actors && s.actors[e.a].InFlight() then 1 else 0)
  }

  lemma EffectCounts(s: State, step: Step)
    requires Enabled(s, step) && !step.ForPod? && Shape(s, EffectOf(s, step))
    ensures LocalCounts(s, EffectOf(s, step))
  {
  }

  lemma OneMember(p: set<ActorId>, q: set<ActorId>, a: ActorId)
    requires p - {a} == q - {a}
    ensures |q| == |p| - (if a in p then 1 else 0) + (if a in q then 1 else 0)
  {
    assert a in p ==> p == (p - {a}) + {a};
    assert a in q ==> q == (q - {a}) + {a};
  }

  lemma WithDeletes(s: State, e: Effect, l: LockId)
    requires Shape(s, e) && LocalCounts(s, e)
    ensures |Deletes(With(s, e), l)| ==
            |Deletes(s, l)| + (if l == e.x.lock && e.x.Delete? && e.a !in s.actors then 1 else 0)
  {
    OneMember(Deletes(s, l), Deletes(With(s, e), l), e.a);
  }

  lemma WithInFlight(s: State, e: Effect, l: LockId)
    requires Shape(s, e)
    ensures |InFlightDeletes(With(s, e), l)| ==
            |InFlightDeletes(s, l)| + (if l == e.x.lock && e.x.InFlight() then 1 else 0)
            - (if l == e.x.lock && e.a in s.actors && s.actors[e.a].InFlight() then 1 else 0)
  {
    OneMember(InFlightDeletes(s, l), InFlightDeletes(With(s, e), l), e.a);
  }

  lemma WithCountsAt(s: State, e: Effect, l: LockId)
    requires Shape(s, e) && LocalCounts(s, e) && l in s.locks
    requires s.locks[l].generation == |Deletes(s, l)| && s.locks[l].deleting == |InFlightDeletes(s, l)|
    ensures With(s, e).locks[l].generation == |Deletes(With(s, e), l)|
    ensures With(s, e).locks[l].deleting == |InFlightDeletes(With(s, e), l)|
  {
    WithDeletes(s, e, l);
    WithInFlight(s, e, l);
  }

  lemma WithCounts(s: State, e: Effect)
    requires Counts(s) && Shape(s, e) && LocalCounts(s, e)
    ensures Counts(With(s, e))
  {
    forall l | l in With(s, e).locks
      ensures With(s, e).locks[l].generation == |Deletes(With(s, e), l)|
      ensures With(s, e).locks[l].deleting == |InFlightDeletes(With(s, e), l)|
    {
      WithCountsAt(s, e, l);
    }
  }

  // ---- every step keeps the invariant ---------------------------------------

  ghost predicate Local(s: State, e: Effect) {
    Shape(s, e) && LocalLease(s, e) && LocalIds(s, e) && LocalOwner(s, e) && LocalRegistry(s, e)
    && LocalDrained(s, e) && LocalAccount(s, e) && LocalCounts(s, e)
  }

  lemma RegistryHere(s: State, a: ActorId, l: LockId)
    requires Inv(s)
    ensures RegistryAt(s, a, l)
  {
    if l in s.locks && a in s.actors && s.actors[a].InFlight() && s.actors[a].lock == l {
      assert a in InFlightDeletes(s, l);
    }
  }

  lemma EffectIsLocal(s: State, step: Step)
    requires Inv(s) && Enabled(s, step) && !step.ForPod?
    ensures Local(s, EffectOf(s, step))
  {
    hide Enabled, EffectOf, Shape, LocalLease, LocalIds, LocalOwner, LocalRegistry, LocalDrained, LocalAccount, LocalCounts;
    EffectShape(s, step);
    var e := EffectOf(s, step);
    assert LeaseAt(s, e.a, e.x.lock) && OwnerAt(s, e.a, e.x.lock);
    RegistryHere(s, e.a, e.x.lock);
    EffectLease(s, step);
    EffectIds(s, step);
    EffectOwner(s, step);
    EffectRegistry(s, step);
    EffectDrained(s, step);
    EffectAccount(s, step);
    EffectCounts(s, step);
  }

  lemma WithKeepsInv(s: State, e: Effect)
    requires Inv(s) && Local(s, e)
    ensures Inv(With(s, e))
  {
    hide Shape, With, WeakMap, Leases, TaskIds, Owners, Registry, Drained, Accounted, Counts;
    hide LocalLease, LocalIds, LocalOwner, LocalRegistry, LocalDrained, LocalAccount, LocalCounts;
    WithWeakMap(s, e);
    WithLeases(s, e);
    WithTaskIds(s, e);
    WithOwners(s, e);
    WithRegistry(s, e);
    WithDrained(s, e);
    WithAccounted(s, e);
    WithCounts(s, e);
  }

  /** Pruning and inserting an unreferenced lock disturb nothing. */
  lemma OpenedWeakMap(s: State, key: Key, l: LockId)
    requires WeakMap(s) && l !in s.locks
    ensures WeakMap(Opened(s, key, l))
  {
  }

  /** `o` is `s` plus locks nobody refers to, apart from the weak map. */
  ghost predicate Extends(s: State, o: State) {
    && o.actors == s.actors
    && (forall m :: m in s.locks ==> m in o.locks && o.locks[m] == s.locks[m])
    && (forall m :: m in o.locks && m !in s.locks ==> o.locks[m] == Lock(o.locks[m].key, 0, 0, 0, map[], None, None, None))
  }

  lemma ExtendedLeases(s: State, o: State)
    requires Extends(s, o) && Leases(s)
    ensures Leases(o)
  {
  }

  lemma ExtendedIds(s: State, o: State)
    requires Extends(s, o) && WeakMap(s) && TaskIds(s)
    ensures TaskIds(o)
  {
  }

  lemma ExtendedOwners(s: State, o: State)
    requires Extends(s, o) && WeakMap(s) && Owners(s)
    ensures Owners(o)
  {
  }

  lemma ExtendedRegistry(s: State, o: State)
    requires Extends(s, o) && Registry(s)
    ensures Registry(o)
  {
  }

  lemma ExtendedDrains(s: State, o: State)
    requires Extends(s, o) && WeakMap(s) && Drained(s) && Accounted(s)
    ensures Drained(o) && Accounted(o)
  {
    forall a | a in s.actors
      ensures (IsRegistered(s, a) <==> IsRegistered(o, a)) && (IsSpawning(s, a) <==> IsSpawning(o, a))
    {
    }
    forall d, t | d in o.actors && o.actors[d].Delete? && t in o.actors[d].drained ensures DrainedTask(o, d, t) {
      assert DrainedTask(s, d, t);
    }
    forall a | a in o.actors && o.actors[a].LiveTask()
      ensures IsRegistered(o, a) || IsSpawning(o, a) || exists d :: Awaits(o, d, a)
    {
      if !IsRegistered(s, a) && !IsSpawning(s, a) {
        var d :| Awaits(s, d, a);
        assert Awaits(o, d, a);
      }
    }
  }

  lemma ExtendedCounts(s: State, o: State)
    requires Extends(s, o) && WeakMap(s) && Counts(s)
    ensures Counts(o)
  {
    forall m | m in o.locks
      ensures o.locks[m].generation == |Deletes(o, m)| && o.locks[m].deleting == |InFlightDeletes(o, m)|
    {
      assert Deletes(o, m) == Deletes(s, m) && InFlightDeletes(o, m) == InFlightDeletes(s, m);
      if m !in s.locks {
        assert Deletes(s, m) == {} && InFlightDeletes(s, m) == {};
      }
    }
  }

  lemma ForPodIsLocal(s: State, key: Key, a: ActorId)
    requires Inv(s) && key in s.weak && a !in s.actors
    ensures Local(s, ForPodEffect(s, key, a))
  {
  }

  lemma StepKeepsInv(s: State, step: Step)
    requires Inv(s) && Enabled(s, step)
    ensures Inv(Apply(s, step))
  {
    hide EffectOf, Local, Leases, TaskIds, Owners, Registry, Drained, Accounted, Counts;
    if step.ForPod? {
      var o := Opened(s, step.key, step.l);
      OpenedWeakMap(s, step.key, step.l);
      ExtendedLeases(s, o);
      ExtendedIds(s, o);
      ExtendedOwners(s, o);
      ExtendedRegistry(s, o);
      ExtendedDrains(s, o);
      ExtendedCounts(s, o);
      ForPodIsLocal(o, step.key, step.a);
      WithKeepsInv(o, ForPodEffect(o, step.key, step.a));
    } else {
      EffectIsLocal(s, step);
      WithKeepsInv(s, EffectOf(s, step));
    }
  }
}
