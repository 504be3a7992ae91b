/** The per-pod lifecycle lock of the daemon as a transition system.

    Every concurrent participant is an actor: a caller holding the lock's `Arc`, a
    spawned startup task, a queued request, or a delete.  A step is one section
    that is atomic in the daemon: a critical section under `state`, one lease
    operation, or one field drop.  Abort, lease hand-off order and the bounded wait
    are nondeterministic: any enabled step may come next.  */
module Lifecycle {
  import opened Wrappers

  type ActorId = nat
  type LockId = nat
  type TaskId = nat

  datatype Key = Key(repo: string, pod: string)

  /** One `PodLifecycleLock`.  `spawning` is the `state` mutex held across a spawn:
      the task already exists, its registration does not. */
  datatype Lock = Lock(
    key: Key,
    generation: nat,
    deleting: int,
    nextTask: TaskId,
    tasks: map<TaskId, ActorId>,
    owner: Option<TaskId>,
    lease: Option<ActorId>,
    spawning: Option<ActorId>)

  /** Waiting for the lease; lease taken; body running; lease dropped but completion
      still alive; completion's drop body done; completion's fields dropped. */
  datatype TaskPhase = Waiting | Leased | Running | Released | Completed | TaskGone

  /** Queued; lease taken but not re-checked; guard granted; refused with the lease
      still held; lease dropped; `Arc` dropped. */
  datatype RequestPhase = Queued | Unchecked | Granted | Refused | Unlocked | RequestGone

  /** Waiting for drained tasks and the lease; guard held; `deleting` decremented with
      the lease still held; lease dropped; `Arc` dropped. */
  datatype DeletePhase = Draining | Guarding | Uncounted | Freed | DeleteGone

  datatype Actor =
    | Handle(lock: LockId, live: bool)
    | Task(lock: LockId, id: TaskId, tphase: TaskPhase, done: bool)
    | Request(lock: LockId, generation: nat, rphase: RequestPhase)
    | Delete(lock: LockId, drained: set<ActorId>, awaiting: set<ActorId>, dphase: DeletePhase)
  {
    /** Owns a strong reference to its lock object. */
    predicate HasRef() {
      match this
      case Handle(_, live) => live
      case Task(_, _, p, _) => p != TaskGone
      case Request(_, _, p) => p != RequestGone
      case Delete(_, _, _, p) => p != DeleteGone
    }

    /** Owns the lease. */
    predicate Holds() {
      match this
      case Handle(_, _) => false
      case Task(_, _, p, _) => p == Leased || p == Running
      case Request(_, _, p) => p == Unchecked || p == Granted || p == Refused
      case Delete(_, _, _, p) => p == Guarding || p == Uncounted
    }

    /** A startup task whose completion has not been dropped. */
    predicate LiveTask() {
      Task? && (tphase == Waiting || tphase == Leased || tphase == Running || tphase == Released)
    }

    /** A delete between its registration and the drop of its guard. */
    predicate InFlight() {
      Delete? && (dphase == Draining || dphase == Guarding)
    }
  }

  datatype State = State(locks: map<LockId, Lock>, actors: map<ActorId, Actor>, weak: map<Key, LockId>)

  const Initial := State(map[], map[], map[])

  ghost predicate Alive(s: State, l: LockId) {
    l in s.locks && exists a :: a in s.actors && s.actors[a].lock == l && s.actors[a].HasRef()
  }

  /** The weak map after `retain(strong_count > 0)`. */
  ghost function Retained(s: State): map<Key, LockId> {
    map k | k in s.weak && Alive(s, s.weak[k]) :: s.weak[k]
  }

  ghost function Deletes(s: State, l: LockId): set<ActorId> {
    set a | a in s.actors && s.actors[a].Delete? && s.actors[a].lock == l
  }

  ghost function InFlightDeletes(s: State, l: LockId): set<ActorId> {
    set a | a in s.actors && s.actors[a].InFlight() && s.actors[a].lock == l
  }

  ghost function LiveTasks(s: State, l: LockId): set<ActorId> {
    set a | a in s.actors && s.actors[a].LiveTask() && s.actors[a].lock == l
  }

  ghost function Registered(s: State, l: LockId): set<ActorId>
    requires l in s.locks
  {
    set t | t in s.locks[l].tasks :: s.locks[l].tasks[t]
  }

  // ---- steps ---------------------------------------------------------------

  datatype Step =
    | ForPod(key: Key, a: ActorId, l: LockId)
    | DropHandle(a: ActorId)
    | Queue(h: ActorId, a: ActorId)
    | SpawnStart(h: ActorId, a: ActorId)
    | SpawnRegister(a: ActorId)
    | TaskTakeLease(a: ActorId)
    | TaskOwn(a: ActorId)
    | TaskGiveUp(a: ActorId)
    | TaskDropLease(a: ActorId)
    | TaskComplete(a: ActorId)
    | TaskDropRef(a: ActorId)
    | RequestTakeLease(a: ActorId)
    | RequestGiveUp(a: ActorId)
    | RequestCheck(a: ActorId)
    | RequestDropLease(a: ActorId)
    | RequestDropRef(a: ActorId)
    | DeleteRegister(h: ActorId, a: ActorId)
    | DeleteObserve(a: ActorId, t: ActorId)
    | DeleteTakeLease(a: ActorId)
    | DeleteUncount(a: ActorId)
    | DeleteDropLease(a: ActorId)
    | DeleteDropRef(a: ActorId)

  ghost predicate IsActor(s: State, a: ActorId) {
    a in s.actors && s.actors[a].lock in s.locks
  }

  ghost predicate IsTask(s: State, a: ActorId) {
    IsActor(s, a) && s.actors[a].Task?
  }

  ghost predicate IsRequest(s: State, a: ActorId) {
    IsActor(s, a) && s.actors[a].Request?
  }

  ghost predicate IsDelete(s: State, a: ActorId) {
    IsActor(s, a) && s.actors[a].Delete?
  }

  ghost function LockOf(s: State, a: ActorId): Lock
    requires IsActor(s, a)
  {
    s.locks[s.actors[a].lock]
  }

  /** A caller with a live handle can enter a critical section on its lock. */
  ghost predicate CallerReady(s: State, h: ActorId, newcomer: ActorId) {
    IsActor(s, h) && s.actors[h] == Handle(s.actors[h].lock, true)
    && newcomer !in s.actors && LockOf(s, h).spawning.None?
  }

  /** `queue` and `spawn` return the "cancelled by delete" error and change nothing
      while a delete is in flight, so they are steps only when `deleting` is 0. */
  ghost predicate Enabled(s: State, step: Step) {
    match step
    case ForPod(_, a, l) => a !in s.actors && l !in s.locks
    case DropHandle(a) => IsActor(s, a) && s.actors[a] == Handle(s.actors[a].lock, true)
    case Queue(h, a) => CallerReady(s, h, a) && LockOf(s, h).deleting == 0
    case SpawnStart(h, a) => CallerReady(s, h, a) && LockOf(s, h).deleting == 0
    case SpawnRegister(a) => IsTask(s, a) && LockOf(s, a).spawning == Some(a)
    case TaskTakeLease(a) => IsTask(s, a) && s.actors[a].tphase == Waiting && LockOf(s, a).lease.None?
    case TaskOwn(a) => IsTask(s, a) && s.actors[a].tphase == Leased && LockOf(s, a).spawning.None?
    case TaskGiveUp(a) => IsTask(s, a) && s.actors[a].tphase == Waiting
    case TaskDropLease(a) => IsTask(s, a) && (s.actors[a].tphase == Leased || s.actors[a].tphase == Running)
    case TaskComplete(a) => IsTask(s, a) && s.actors[a].tphase == Released && LockOf(s, a).spawning.None?
    case TaskDropRef(a) => IsTask(s, a) && s.actors[a].tphase == Completed
    case RequestTakeLease(a) => IsRequest(s, a) && s.actors[a].rphase == Queued && LockOf(s, a).lease.None?
    case RequestGiveUp(a) => IsRequest(s, a) && s.actors[a].rphase == Queued
    case RequestCheck(a) => IsRequest(s, a) && s.actors[a].rphase == Unchecked && LockOf(s, a).spawning.None?
    case RequestDropLease(a) => IsRequest(s, a) && (s.actors[a].rphase == Granted || s.actors[a].rphase == Refused)
    case RequestDropRef(a) => IsRequest(s, a) && s.actors[a].rphase == Unlocked
    case DeleteRegister(h, a) => CallerReady(s, h, a)
    case DeleteObserve(a, t) =>
      IsDelete(s, a) && t in s.actors[a].awaiting && IsTask(s, t) && s.actors[t].done
    case DeleteTakeLease(a) =>
      IsDelete(s, a) && s.actors[a].dphase == Draining && s.actors[a].awaiting == {} && LockOf(s, a).lease.None?
    case DeleteUncount(a) => IsDelete(s, a) && s.actors[a].dphase == Guarding && LockOf(s, a).spawning.None?
    case DeleteDropLease(a) => IsDelete(s, a) && s.actors[a].dphase == Uncounted
    case DeleteDropRef(a) => IsDelete(s, a) && s.actors[a].dphase == Freed
  }

  /** Every step but `ForPod` writes one actor and that actor's lock. */
  datatype Effect = Effect(a: ActorId, x: Actor, k: Lock)

  ghost function EffectOf(s: State, step: Step): Effect
    requires Enabled(s, step) && !step.ForPod?
  {
    match step
    case DropHandle(a) => Effect(a, s.actors[a].(live := false), LockOf(s, a))
    case Queue(h, a) =>
      var k := LockOf(s, h);
      Effect(a, Request(s.actors[h].lock, k.generation, Queued), k)
    case SpawnStart(h, a) =>
      var k := LockOf(s, h);
      Effect(a, Task(s.actors[h].lock, k.nextTask, Waiting, false),
             k.(nextTask := k.nextTask + 1, spawning := Some(a)))
    case SpawnRegister(a) =>
      var k := LockOf(s, a);
      Effect(a, s.actors[a], k.(tasks := k.tasks[s.actors[a].id := a], spawning := None))
    case TaskTakeLease(a) => Effect(a, s.actors[a].(tphase := Leased), LockOf(s, a).(lease := Some(a)))
    case TaskOwn(a) =>
      Effect(a, s.actors[a].(tphase := Running), LockOf(s, a).(owner := Some(s.actors[a].id)))
    case TaskGiveUp(a) => Effect(a, s.actors[a].(tphase := Released), LockOf(s, a))
    case TaskDropLease(a) => Effect(a, s.actors[a].(tphase := Released), LockOf(s, a).(lease := None))
    case TaskComplete(a) =>
      var k := LockOf(s, a);
      var id := s.actors[a].id;
      Effect(a, s.actors[a].(tphase := Completed, done := true),
             k.(tasks := k.tasks - {id}, owner := if k.owner == Some(id) then None else k.owner))
    case TaskDropRef(a) => Effect(a, s.actors[a].(tphase := TaskGone), LockOf(s, a))
    case RequestTakeLease(a) => Effect(a, s.actors[a].(rphase := Unchecked), LockOf(s, a).(lease := Some(a)))
    case RequestGiveUp(a) => Effect(a, s.actors[a].(rphase := RequestGone), LockOf(s, a))
    case RequestCheck(a) =>
      var k := LockOf(s, a);
      var stale := k.generation != s.actors[a].generation || k.deleting != 0;
      Effect(a, s.actors[a].(rphase := if stale then Refused else Granted), k)
    case RequestDropLease(a) => Effect(a, s.actors[a].(rphase := Unlocked), LockOf(s, a).(lease := None))
    case RequestDropRef(a) => Effect(a, s.actors[a].(rphase := RequestGone), LockOf(s, a))
    case DeleteRegister(h, a) =>
      var k := LockOf(s, h);
      var drained := Registered(s, s.actors[h].lock);
      Effect(a, Delete(s.actors[h].lock, drained, drained, Draining),
             k.(deleting := k.deleting + 1, generation := k.generation + 1, tasks := map[]))
    case DeleteObserve(a, t) =>
      Effect(a, s.actors[a].(awaiting := s.actors[a].awaiting - {t}), LockOf(s, a))
    case DeleteTakeLease(a) => Effect(a, s.actors[a].(dphase := Guarding), LockOf(s, a).(lease := Some(a)))
    case DeleteUncount(a) =>
      var k := LockOf(s, a);
      Effect(a, s.actors[a].(dphase := Uncounted), k.(deleting := k.deleting - 1))
    case DeleteDropLease(a) => Effect(a, s.actors[a].(dphase := Freed), LockOf(s, a).(lease := None))
    case DeleteDropRef(a) => Effect(a, s.actors[a].(dphase := DeleteGone), LockOf(s, a))
  }

  ghost function With(s: State, e: Effect): State {
    s.(actors := s.actors[e.a := e.x], locks := s.locks[e.x.lock := e.k])
  }

  /** `for_pod` up to the returned `Arc`: prune dead entries, then keep the live lock
      of the key or insert a new one under the unused id `l`. */
  ghost function Opened(s: State, key: Key, l: LockId): State {
    var kept := Retained(s);
    if key in kept then s.(weak := kept)
    else s.(weak := kept[key := l], locks := s.locks[l := Lock(key, 0, 0, 0, map[], None, None, None)])
  }

  ghost function ForPodEffect(s: State, key: Key, a: ActorId): Effect
    requires key in s.weak && s.weak[key] in s.locks
  {
    Effect(a, Handle(s.weak[key], true), s.locks[s.weak[key]])
  }

  ghost function Apply(s: State, step: Step): State
    requires Enabled(s, step)
  {
    if step.ForPod? then
      var o := Opened(s, step.key, step.l);
      With(o, ForPodEffect(o, step.key, step.a))
    else
      With(s, EffectOf(s, step))
  }
}
