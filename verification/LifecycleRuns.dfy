/** Safety of the lifecycle lock over whole runs, in every interleaving. */
module LifecycleRuns {
  import opened Wrappers
  import opened Lifecycle
  import opened LifecycleInvariant

  ghost predicate StepAt(states: seq<State>, steps: seq<Step>, i: nat)
    requires |states| == |steps| + 1 && i < |steps|
  {
    Enabled(states[i], steps[i]) && states[i + 1] == Apply(states[i], steps[i])
  }

  /** `states[i]` leads to `states[i + 1]` by `steps[i]`, from a daemon with no locks. */
  ghost predicate IsRun(states: seq<State>, steps: seq<Step>) {
    && |states| == |steps| + 1
    && states[0] == Initial
    && (forall i :: 0 <= i < |steps| ==> StepAt(states, steps, i))
  }

  lemma InitialInv()
    ensures Inv(Initial)
  {
    hide WeakMap, Leases, TaskIds, Owners, Registry, Drained, Accounted, Counts;
    EmptyTasks(Initial);
    EmptyDeletes(Initial);
  }

  lemma EmptyTasks(s: State)
    requires s.actors.Keys == {} && s.locks.Keys == {} && s.weak.Keys == {}
    ensures WeakMap(s) && Leases(s) && TaskIds(s) && Owners(s)
  {
  }

  lemma EmptyDeletes(s: State)
    requires s.actors.Keys == {} && s.locks.Keys == {}
    ensures Registry(s) && Drained(s) && Accounted(s) && Counts(s)
  {
  }

  lemma {:induction false} RunKeepsInv(states: seq<State>, steps: seq<Step>, i: nat)
    requires IsRun(states, steps) && i < |states|
    ensures Inv(states[i])
  {
    hide Inv, Enabled, Apply;
    if i == 0 {
      InitialInv();
    } else {
      RunKeepsInv(states, steps, i - 1);
      assert StepAt(states, steps, i - 1);
      StepKeepsInv(states[i - 1], steps[i - 1]);
    }
  }

  // ---- mutual exclusion ----------------------------------------------------

  /** Two actors that run a startup body, a stop guard or a delete guard for one
      (repository, pod) at the same time are the same actor, whatever lock objects they went through. */
  lemma MutualExclusion(states: seq<State>, steps: seq<Step>, i: nat, a: ActorId, b: ActorId)
    requires IsRun(states, steps) && i < |states|
    requires a in states[i].actors && b in states[i].actors
    requires var x := states[i].actors[a];
             (x.Task? && x.tphase == Running) || (x.Request? && x.rphase == Granted) || (x.Delete? && x.dphase == Guarding)
    requires var y := states[i].actors[b];
             (y.Task? && y.tphase == Running) || (y.Request? && y.rphase == Granted) || (y.Delete? && y.dphase == Guarding)
    requires IsActor(states[i], a) && IsActor(states[i], b) && LockOf(states[i], a).key == LockOf(states[i], b).key
    ensures a == b
  {
    RunKeepsInv(states, steps, i);
    assert states[i].actors[a].Holds() && states[i].actors[b].Holds();
    assert states[i].actors[a].HasRef() && states[i].actors[b].HasRef();
  }

  /** A held lease keeps its lock reachable: `for_pod` returns that same lock and
      cannot create a second one for the pod. */
  lemma LeaseKeepsLock(states: seq<State>, steps: seq<Step>, i: nat, a: ActorId, h: ActorId, l: LockId)
    requires IsRun(states, steps) && i < |states|
    requires IsActor(states[i], a) && states[i].actors[a].Holds()
    requires Enabled(states[i], ForPod(LockOf(states[i], a).key, h, l))
    ensures var s' := Apply(states[i], ForPod(LockOf(states[i], a).key, h, l));
            s'.actors[h] == Handle(states[i].actors[a].lock, true) && s'.locks == states[i].locks
  {
    hide Leases, TaskIds, Owners, Registry, Drained, Accounted, Counts, Opened, IsRun, WeakMap, Enabled, EffectOf;
    RunKeepsInv(states, steps, i);
    var s := states[i];
    assert s.actors[a].HasRef();
    HeldLock(s, a, l);
  }

  lemma HeldLock(s: State, a: ActorId, l: LockId)
    requires WeakMap(s) && IsActor(s, a) && s.actors[a].HasRef()
    ensures var key := LockOf(s, a).key;
            var o := Opened(s, key, l);
            key in o.weak && o.weak[key] == s.actors[a].lock && o.locks == s.locks && o.actors == s.actors
  {
    assert Alive(s, s.actors[a].lock) && LockOf(s, a).key in Retained(s);
  }

  /** `a` holds a strong reference to a lock of this key. */
  ghost predicate Refers(s: State, a: ActorId, key: Key) {
    a in s.actors && s.actors[a].HasRef() && s.actors[a].lock in s.locks && s.locks[s.actors[a].lock].key == key
  }

  /** `for_pod` returns the lock some actor still refers to, and otherwise a new one in
      its first state: a lock nobody refers to is never handed out again. */
  lemma ForPodExact(states: seq<State>, steps: seq<Step>, i: nat, key: Key, h: ActorId, l: LockId)
    requires IsRun(states, steps) && i < |states| && h !in states[i].actors && l !in states[i].locks
    ensures Enabled(states[i], ForPod(key, h, l))
    ensures var s, s' := states[i], Apply(states[i], ForPod(key, h, l));
            && (forall a :: Refers(s, a, key) ==>
                  s'.actors == s.actors[h := Handle(s.actors[a].lock, true)] && s'.locks == s.locks)
            && ((forall a :: !Refers(s, a, key)) ==>
                  && s'.actors == s.actors[h := Handle(l, true)]
                  && s'.locks == s.locks[l := Lock(key, 0, 0, 0, map[], None, None, None)])
            && (s'.actors[h] == Handle(l, true) <==> forall a :: !Refers(s, a, key))
            && (forall k :: k in s'.weak ==> exists a :: Refers(s', a, k))
  {
    hide Leases, TaskIds, Owners, Registry, Drained, Accounted, Counts, IsRun;
    RunKeepsInv(states, steps, i);
    ForPodOpens(states[i], key, h, l);
    ForPodPrunes(states[i], key, h, l);
  }

  lemma ForPodOpens(s: State, key: Key, h: ActorId, l: LockId)
    requires WeakMap(s) && h !in s.actors && l !in s.locks
    ensures var s' := Apply(s, ForPod(key, h, l));
            && (forall a :: Refers(s, a, key) ==>
                  s'.actors == s.actors[h := Handle(s.actors[a].lock, true)] && s'.locks == s.locks)
            && ((forall a :: !Refers(s, a, key)) ==>
                  && s'.actors == s.actors[h := Handle(l, true)]
                  && s'.locks == s.locks[l := Lock(key, 0, 0, 0, map[], None, None, None)])
  {
    forall a | Refers(s, a, key)
      ensures Opened(s, key, l).weak[key] == s.actors[a].lock && Opened(s, key, l).locks == s.locks
    {
      hide Opened;
      HeldLock(s, a, l);
    }
    if forall a :: !Refers(s, a, key) {
      assert key !in Retained(s);
    }
  }

  lemma ForPodPrunes(s: State, key: Key, h: ActorId, l: LockId)
    requires WeakMap(s) && h !in s.actors && l !in s.locks
    ensures var s' := Apply(s, ForPod(key, h, l));
            forall k :: k in s'.weak ==> exists a :: Refers(s', a, k)
  {
    var s' := Apply(s, ForPod(key, h, l));
    forall k | k in s'.weak ensures exists a :: Refers(s', a, k) {
      if k == key {
        assert Refers(s', h, k);
      } else {
        var a :| a in s.actors && s.actors[a].lock == s.weak[k] && s.actors[a].HasRef();
        assert Refers(s', a, k);
      }
    }
  }

  // ---- live tasks and deletes ----------------------------------------------

  ghost function Spawning(s: State, l: LockId): set<ActorId>
    requires l in s.locks
  {
    if s.locks[l].spawning.Some? then {s.locks[l].spawning.value} else {}
  }

  /** Live tasks that a delete in flight took out of the registry. */
  ghost function DrainedLive(s: State, l: LockId): set<ActorId> {
    set a | a in LiveTasks(s, l) && exists d :: d in InFlightDeletes(s, l) && a in s.actors[d].drained
  }

  /** Live tasks are exactly the registered ones, the one being spawned, and those
      drained by a delete still in flight; the three kinds do not overlap and no
      task is drained twice. */
  lemma LivePartition(states: seq<State>, steps: seq<Step>, i: nat, l: LockId)
    requires IsRun(states, steps) && i < |states| && l in states[i].locks
    ensures LiveTasks(states[i], l) ==
            Registered(states[i], l) + Spawning(states[i], l) + DrainedLive(states[i], l)
    ensures Registered(states[i], l) !! Spawning(states[i], l) !! DrainedLive(states[i], l)
    ensures forall d, e :: d in Deletes(states[i], l) && e in Deletes(states[i], l) && d != e ==>
              states[i].actors[d].drained !! states[i].actors[e].drained
  {
    var s := states[i];
    RunKeepsInv(states, steps, i);
    forall a
      ensures a in LiveTasks(s, l) <==> a in Registered(s, l) || a in Spawning(s, l) || a in DrainedLive(s, l)
      ensures a in Registered(s, l) ==> a !in Spawning(s, l) && a !in DrainedLive(s, l)
      ensures a in Spawning(s, l) ==> a !in DrainedLive(s, l)
    {
      LiveKind(s, l, a);
    }
  }

  lemma LiveKind(s: State, l: LockId, a: ActorId)
    requires Inv(s) && l in s.locks
    ensures a in LiveTasks(s, l) <==> a in Registered(s, l) || a in Spawning(s, l) || a in DrainedLive(s, l)
    ensures a in Registered(s, l) ==> a !in Spawning(s, l) && a !in DrainedLive(s, l)
    ensures a in Spawning(s, l) ==> a !in DrainedLive(s, l)
  {
    RegisteredIs(s, l, a);
    if a in LiveTasks(s, l) && !IsRegistered(s, a) && !IsSpawning(s, a) {
      var d :| Awaits(s, d, a);
      assert DrainedTask(s, d, a) && d in InFlightDeletes(s, l);
    }
    if a in DrainedLive(s, l) {
      var d :| d in InFlightDeletes(s, l) && a in s.actors[d].drained;
      assert DrainedTask(s, d, a);
    }
  }

  /** A delete past its wait has outlived every task it drained. */
  lemma GuardAfterDrain(states: seq<State>, steps: seq<Step>, i: nat, d: ActorId, t: ActorId)
    requires IsRun(states, steps) && i < |states|
    requires d in states[i].actors && states[i].actors[d].Delete? && states[i].actors[d].dphase != Draining
    requires t in states[i].actors[d].drained
    ensures IsTask(states[i], t) && states[i].actors[t].done && !states[i].actors[t].LiveTask()
  {
    RunKeepsInv(states, steps, i);
    assert DrainedTask(states[i], d, t);
  }

  /** What no step undoes about an actor that already exists. */
  ghost predicate Persists(s: State, s': State, a: ActorId)
    requires a in s.actors
  {
    && a in s'.actors
    && s'.actors[a].lock == s.actors[a].lock
    && (s.actors[a].Task? <==> s'.actors[a].Task?)
    && (s.actors[a].Delete? <==> s'.actors[a].Delete?)
    && (s.actors[a].Request? ==> s'.actors[a].Request? && s'.actors[a].generation == s.actors[a].generation)
    && (s'.actors[a].LiveTask() ==> s.actors[a].LiveTask())
    && (s'.actors[a].InFlight() ==> s.actors[a].InFlight())
    && (IsRegistered(s', a) || IsSpawning(s', a) ==> IsRegistered(s, a) || IsSpawning(s, a))
  }

  lemma EffectPersists(s: State, e: Effect, a: ActorId)
    requires WeakMap(s) && a in s.actors && Local(s, e)
    requires e.a in s.actors && e.x.Request? ==> s.actors[e.a].Request? && e.x.generation == s.actors[e.a].generation
    requires e.a in s.actors && s.actors[e.a].Request? ==> e.x.Request?
    requires e.a in s.actors && e.x.InFlight() ==> s.actors[e.a].InFlight()
    ensures Persists(s, With(s, e), a)
  {
    hide LocalLease, LocalIds, LocalOwner, LocalAccount, LocalCounts;
  }

  lemma EffectKeepsKind(s: State, step: Step)
    requires Enabled(s, step) && !step.ForPod?
    ensures var e := EffectOf(s, step);
            e.a in s.actors ==>
              && (e.x.Request? <==> s.actors[e.a].Request?)
              && (e.x.Request? ==> e.x.generation == s.actors[e.a].generation)
              && (e.x.InFlight() ==> s.actors[e.a].InFlight())
  {
  }

  lemma StepPersists(s: State, step: Step, a: ActorId)
    requires Inv(s) && Enabled(s, step) && a in s.actors
    ensures Persists(s, Apply(s, step), a)
  {
    hide EffectOf, Local, Leases, TaskIds, Owners, Registry, Drained, Accounted, Counts;
    if step.ForPod? {
      var o := Opened(s, step.key, step.l);
      assert Extends(s, o);
    } else {
      EffectIsLocal(s, step);
      EffectKeepsKind(s, step);
      EffectPersists(s, EffectOf(s, step), a);
    }
  }

  lemma {:induction false} RunPersists(states: seq<State>, steps: seq<Step>, i: nat, j: nat, a: ActorId)
    requires IsRun(states, steps) && i <= j < |states| && a in states[i].actors
    ensures Persists(states[i], states[j], a)
  {
    hide Inv, Enabled, Apply, IsRegistered, IsSpawning;
    if i < j {
      RunPersists(states, steps, i, j - 1, a);
      RunKeepsInv(states, steps, j - 1);
      assert StepAt(states, steps, j - 1);
      StepPersists(states[j - 1], steps[j - 1], a);
    }
  }

  /** Once `deleting` is back to 0, no task that existed when a delete registered is live. */
  lemma DeletesLeaveNothing(states: seq<State>, steps: seq<Step>, i: nat, j: nat, d: ActorId, t: ActorId)
    requires IsRun(states, steps) && i < j < |states|
    requires steps[i].DeleteRegister? && steps[i].a == d
    requires d in states[i + 1].actors && IsTask(states[i], t) && states[i].actors[t].lock == states[i + 1].actors[d].lock
    requires IsActor(states[j], t) && LockOf(states[j], t).deleting == 0
    ensures !states[j].actors[t].LiveTask()
  {
    assert StepAt(states, steps, i);
    assert !IsRegistered(states[i + 1], t) && !IsSpawning(states[i + 1], t);
    RunPersists(states, steps, i, i + 1, t);
    RunPersists(states, steps, i + 1, j, t);
    RunKeepsInv(states, steps, j);
    if states[j].actors[t].LiveTask() {
      LiveNeedsDelete(states[j], t);
    }
  }

  lemma LiveNeedsDelete(s: State, t: ActorId)
    requires Inv(s) && t in s.actors && s.actors[t].LiveTask() && !IsRegistered(s, t) && !IsSpawning(s, t)
    ensures IsActor(s, t) && LockOf(s, t).deleting > 0
  {
    var d :| Awaits(s, d, t);
    assert DrainedTask(s, d, t);
    assert d in InFlightDeletes(s, s.actors[t].lock);
  }

  // ---- queued requests -------------------------------------------------------

  ghost predicate Registers(s: State, step: Step, l: LockId) {
    step.DeleteRegister? && step.h in s.actors && s.actors[step.h].lock == l
  }

  lemma GenerationStep(s: State, step: Step, l: LockId)
    requires Enabled(s, step) && l in s.locks
    ensures var s' := Apply(s, step);
            var n := if Registers(s, step, l) then 1 else 0;
            l in s'.locks && s'.locks[l].generation == s.locks[l].generation + n
            && s'.locks[l].deleting <= s.locks[l].deleting + n
  {
    if !step.ForPod? {
      hide Enabled, EffectOf;
      GenerationEffect(s, step);
    }
  }

  lemma GenerationEffect(s: State, step: Step)
    requires Enabled(s, step) && !step.ForPod?
    ensures var e := EffectOf(s, step);
            && e.x.lock in s.locks
            && (step.DeleteRegister? ==> step.h in s.actors && s.actors[step.h].lock == e.x.lock)
            && e.k.generation == s.locks[e.x.lock].generation + (if step.DeleteRegister? then 1 else 0)
            && e.k.deleting <= s.locks[e.x.lock].deleting + (if step.DeleteRegister? then 1 else 0)
  {
  }

  /** The generation moves by one per delete registered on the lock. */
  lemma {:induction false} GenerationRun(states: seq<State>, steps: seq<Step>, i: nat, j: nat, l: LockId)
    requires IsRun(states, steps) && i <= j < |states| && l in states[i].locks
    ensures l in states[j].locks && states[i].locks[l].generation <= states[j].locks[l].generation
    ensures states[i].locks[l].generation == states[j].locks[l].generation <==>
            forall k :: i <= k < j ==> !Registers(states[k], steps[k], l)
    ensures states[i].locks[l].generation == states[j].locks[l].generation ==>
            states[j].locks[l].deleting <= states[i].locks[l].deleting
  {
    hide Inv, Enabled, Apply, Registers;
    if i < j {
      GenerationRun(states, steps, i, j - 1, l);
      assert StepAt(states, steps, j - 1);
      GenerationStep(states[j - 1], steps[j - 1], l);
    }
  }

  /** A queued request gets its guard exactly when no delete registered on its lock
      between `queue` and the re-check; otherwise it can only be refused. */
  lemma GrantedIffUndisturbed(states: seq<State>, steps: seq<Step>, q: nat, g: nat, r: ActorId)
    requires IsRun(states, steps) && q < g < |steps|
    requires steps[q].Queue? && steps[q].a == r && steps[g] == RequestCheck(r)
    ensures r in states[g + 1].actors && states[g + 1].actors[r].Request?
    ensures var l := states[g + 1].actors[r].lock;
            states[g + 1].actors[r].rphase ==
            if forall k :: q < k < g ==> !Registers(states[k], steps[k], l) then Granted else Refused
  {
    assert StepAt(states, steps, q) && StepAt(states, steps, g);
    RunPersists(states, steps, q + 1, g, r);
    var l := states[g].actors[r].lock;
    assert states[q + 1].actors[r] == Request(l, states[q + 1].locks[l].generation, Queued);
    GenerationRun(states, steps, q + 1, g, l);
    DeleteCounters(states, steps, g, l);
  }

  /** `generation` is the number of deletes ever registered; `deleting` is the number
      between registration and guard drop, so its decrement never underflows. */
  lemma DeleteCounters(states: seq<State>, steps: seq<Step>, i: nat, l: LockId)
    requires IsRun(states, steps) && i < |states| && l in states[i].locks
    ensures states[i].locks[l].generation == |Deletes(states[i], l)|
    ensures states[i].locks[l].deleting == |InFlightDeletes(states[i], l)|
    ensures forall d :: d in InFlightDeletes(states[i], l) ==> states[i].locks[l].deleting > 0
    ensures states[i].locks[l].deleting > 0 ==> states[i].locks[l].tasks == map[] && states[i].locks[l].spawning.None?
  {
    RunKeepsInv(states, steps, i);
  }

  /** A drained task whose completion is gone has signalled: the wait in
      `acquire_for_delete` never sees a closed channel without the signal. */
  lemma AlwaysSignalled(states: seq<State>, steps: seq<Step>, i: nat, d: ActorId, t: ActorId)
    requires IsRun(states, steps) && i < |states|
    requires Awaits(states[i], d, t)
    ensures IsTask(states[i], t)
    ensures states[i].actors[t].tphase == Completed || states[i].actors[t].tphase == TaskGone ==> states[i].actors[t].done
  {
    RunKeepsInv(states, steps, i);
    assert DrainedTask(states[i], d, t);
  }

  /** Task ids are unique per lock, and `owner` names the task whose body runs, even
      while earlier owners still have their completion to drop. */
  lemma OwnerRuns(states: seq<State>, steps: seq<Step>, i: nat, a: ActorId, b: ActorId)
    requires IsRun(states, steps) && i < |states|
    requires IsTask(states[i], a) && IsTask(states[i], b) && states[i].actors[a].lock == states[i].actors[b].lock
    ensures states[i].actors[a].id == states[i].actors[b].id ==> a == b
    ensures states[i].actors[a].tphase == Running ==> LockOf(states[i], a).owner == Some(states[i].actors[a].id)
    ensures LockOf(states[i], a).owner == Some(states[i].actors[a].id) && states[i].actors[b].tphase == Running ==> a == b
  {
    RunKeepsInv(states, steps, i);
  }

  // ---- what is always possible ------------------------------------------------

  /** The step belongs to an actor of this lock that exists already. */
  ghost predicate Moves(s: State, step: Step, l: LockId) {
    && !step.ForPod? && !step.Queue? && !step.SpawnStart? && !step.DeleteRegister?
    && step.a in s.actors && s.actors[step.a].lock == l && Enabled(s, step)
  }

  /** No deadlock: while anybody refers to a lock, one of its actors can take a step. */
  lemma NoDeadlock(states: seq<State>, steps: seq<Step>, i: nat, a: ActorId)
    requires IsRun(states, steps) && i < |states|
    requires a in states[i].actors && states[i].actors[a].HasRef()
    ensures exists step :: Moves(states[i], step, states[i].actors[a].lock)
  {
    hide IsRun, Enabled;
    RunKeepsInv(states, steps, i);
    var s, l := states[i], states[i].actors[a].lock;
    var k := s.locks[l];
    if k.spawning.Some? {
      var b := k.spawning.value;
      assert IsLiveOf(s, b, l);
      assert Moves(s, SpawnRegister(b), l) by { CanRegister(s, b); }
    } else if k.lease.Some? {
      HolderMoves(s, k.lease.value);
    } else if s.actors[a].Delete? && s.actors[a].awaiting != {} {
      var t :| t in s.actors[a].awaiting;
      assert DrainedTask(s, a, t);
      if s.actors[t].done {
        assert Moves(s, DeleteObserve(a, t), l) by { CanObserve(s, a, t); }
      } else {
        FreeMoves(s, t);
      }
    } else {
      FreeMoves(s, a);
    }
  }

  lemma CanRegister(s: State, b: ActorId)
    requires IsTask(s, b) && LockOf(s, b).spawning == Some(b)
    ensures Enabled(s, SpawnRegister(b))
  {
  }

  lemma CanObserve(s: State, d: ActorId, t: ActorId)
    requires IsDelete(s, d) && t in s.actors[d].awaiting && IsTask(s, t) && s.actors[t].done
    ensures Enabled(s, DeleteObserve(d, t))
  {
  }

  /** Whoever holds the lease can go on while nobody is spawning. */
  lemma HolderMoves(s: State, b: ActorId)
    requires IsActor(s, b) && s.actors[b].Holds() && LockOf(s, b).spawning.None?
    ensures exists step :: Moves(s, step, s.actors[b].lock)
  {
    var step := match s.actors[b]
      case Task(_, _, _, _) => TaskDropLease(b)
      case Request(_, _, p) => if p == Unchecked then RequestCheck(b) else RequestDropLease(b)
      case Delete(_, _, _, p) => if p == Guarding then DeleteUncount(b) else DeleteDropLease(b)
      case Handle(_, _) => DropHandle(b);
    assert Moves(s, step, s.actors[b].lock);
  }

  /** With the lease free and nobody spawning, everybody but a waiting delete can go on. */
  lemma FreeMoves(s: State, b: ActorId)
    requires IsActor(s, b) && s.actors[b].HasRef() && !s.actors[b].Holds()
    requires LockOf(s, b).spawning.None? && LockOf(s, b).lease.None?
    requires s.actors[b].Delete? ==> s.actors[b].awaiting == {}
    ensures exists step :: Moves(s, step, s.actors[b].lock)
  {
    var step := match s.actors[b]
      case Task(_, _, p, _) =>
        if p == Waiting then TaskTakeLease(b) else if p == Released then TaskComplete(b) else TaskDropRef(b)
      case Request(_, _, p) => if p == Queued then RequestTakeLease(b) else RequestDropRef(b)
      case Delete(_, _, _, p) => if p == Draining then DeleteTakeLease(b) else DeleteDropRef(b)
      case Handle(_, _) => DropHandle(b);
    assert Moves(s, step, s.actors[b].lock);
  }

  /** A caller with a live handle can start a delete whenever `state` is free, and a
      request or a task exactly when no delete is in flight; waiting can be abandoned,
      and a task that holds the lease can be aborted, at any time. */
  lemma AlwaysPossible(s: State, h: ActorId, a: ActorId)
    requires h in s.actors && s.actors[h].lock in s.locks
    ensures s.actors[h] == Handle(s.actors[h].lock, true) && s.locks[s.actors[h].lock].spawning.None? && a !in s.actors ==>
              && Enabled(s, DeleteRegister(h, a))
              && (Enabled(s, Queue(h, a)) <==> s.locks[s.actors[h].lock].deleting == 0)
              && (Enabled(s, SpawnStart(h, a)) <==> s.locks[s.actors[h].lock].deleting == 0)
    ensures s.actors[h].Task? && s.actors[h].tphase == Waiting ==> Enabled(s, TaskGiveUp(h))
    ensures s.actors[h].Task? && (s.actors[h].tphase == Leased || s.actors[h].tphase == Running) ==>
              Enabled(s, TaskDropLease(h))
    ensures s.actors[h].Request? && s.actors[h].rphase == Queued ==> Enabled(s, RequestGiveUp(h))
  {
  }
}
