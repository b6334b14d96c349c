/** The state of `VMScheduler` as a value, the effect of each of its
    operations on that state, and the invariant they keep. The class in module
    Scheduler is proved against these definitions. */
module SchedulerModel {
  import opened Wrappers
  import LP = LinkedProcess
  import opened Workers

  /** The farm status values VMScheduler.java uses. (LinkedProcess.java's own
      FarmStatus has INACTIVE where the scheduler uses TERMINATED.) */
  datatype FarmStatus = Active | ActiveFull | Terminated

  /** The exceptions the operations throw. */
  datatype SchedulerError =
    | IllegalState             // scheduler has been terminated
    | IllegalArgument          // null or empty machine id
    | SchedulerIsFull          // VMSchedulerIsFullException
    | UnsupportedScriptEngine  // UnsupportedScriptEngineException
    | VMAlreadyExists          // VMAlreadyExistsException
    | VMWorkerNotFound         // VMWorkerNotFoundException
    | VMWorkerIsFull           // VMWorkerIsFullException
    | JobAlreadyExists         // JobAlreadyExistsException
    | JobNotFound              // JobNotFoundException

  /** A call to the status event handler. */
  datatype Event =
    | SchedulerStatusChanged(newStatus: FarmStatus)
    | VmStatusChanged(vmJid: string, vmStatus: LP.VmStatus)

  /** The configuration read once from the properties: MAX_VM, VM_TIMEOUT,
      SCHEDULER_CLEANUP_INTERVAL, the number of sequencer threads, the job
      queue capacity of a worker, and the script species the engine manager
      knows. */
  datatype Config = Config(
    maxVm: int,
    vmTimeout: int,
    cleanupInterval: int,
    numberOfSequencers: nat,
    jobQueueCapacity: nat,
    supportedSpecies: set<string>)

  /** The part of the scheduler's state that its operations rewrite. */
  datatype SchedulerState = SchedulerState(
    status: FarmStatus,
    workers: map<string, Worker>,
    queue: seq<QueueEntry>,
    lastCleanupTime: int,
    events: seq<Event>)

  // ---------------------------------------------------------------------------
  // Event traces

  /** The JIDs of the VM status events in `es`, in order. */
  ghost function VmIds(es: seq<Event>): seq<string>
  {
    if es == [] then []
    else (if es[0].VmStatusChanged? then [es[0].vmJid] else []) + VmIds(es[1..])
  }

  /** The scheduler status events in `es`, in order. */
  ghost function StatusChanges(es: seq<Event>): seq<FarmStatus>
  {
    if es == [] then []
    else (if es[0].SchedulerStatusChanged? then [es[0].newStatus] else []) + StatusChanges(es[1..])
  }

  lemma TraceAppend(a: seq<Event>, b: seq<Event>)
    ensures VmIds(a + b) == VmIds(a) + VmIds(b)
    ensures StatusChanges(a + b) == StatusChanges(a) + StatusChanges(b)
  {
    VmIdsAppend(a, b);
    StatusChangesAppend(a, b);
  }

  lemma {:induction false} VmIdsAppend(a: seq<Event>, b: seq<Event>)
    ensures VmIds(a + b) == VmIds(a) + VmIds(b)
  {
    if a == [] {
      assert a + b == b;
    } else {
      assert (a + b)[0] == a[0] && (a + b)[1..] == a[1..] + b;
      VmIdsAppend(a[1..], b);
    }
  }

  lemma {:induction false} StatusChangesAppend(a: seq<Event>, b: seq<Event>)
    ensures StatusChanges(a + b) == StatusChanges(a) + StatusChanges(b)
  {
    if a == [] {
      assert a + b == b;
    } else {
      assert (a + b)[0] == a[0] && (a + b)[1..] == a[1..] + b;
      StatusChangesAppend(a[1..], b);
    }
  }

  /** Each event of a trace is a VM status event or a scheduler status
      event. */
  lemma {:induction false} TraceLength(es: seq<Event>)
    ensures |es| == |VmIds(es)| + |StatusChanges(es)|
  {
    if es != [] {
      TraceLength(es[1..]);
    }
  }

  /** Every VM status event in `es` announces NOT_FOUND. */
  ghost predicate OnlyNotFound(es: seq<Event>)
  {
    es == [] || ((es[0].VmStatusChanged? ==> es[0].vmStatus == LP.VmStatus.NotFound) && OnlyNotFound(es[1..]))
  }

  lemma {:induction false} OnlyNotFoundAppend(a: seq<Event>, b: seq<Event>)
    requires OnlyNotFound(a) && OnlyNotFound(b)
    ensures OnlyNotFound(a + b)
  {
    if a == [] {
      assert a + b == b;
    } else {
      assert (a + b)[0] == a[0];
      assert (a + b)[1..] == a[1..] + b;
      OnlyNotFoundAppend(a[1..], b);
    }
  }

  /** The events of removing the VMs in `gone`, in any order: one NOT_FOUND
      event per VM, and one switch back to ACTIVE exactly when `relaxed`. */
  ghost predicate RemovalTrace(es: seq<Event>, gone: set<string>, relaxed: bool)
  {
    && OnlyNotFound(es)
    && multiset(VmIds(es)) == multiset(gone)
    && StatusChanges(es) == if relaxed then [FarmStatus.Active] else []
  }

  /** The events of unregistering `jid`: NOT_FOUND for the VM, then the
      switch back to ACTIVE when the removal `relaxes` a full farm. */
  function RemovalEvents(jid: string, relaxes: bool): seq<Event>
  {
    [VmStatusChanged(jid, LP.VmStatus.NotFound)]
    + (if relaxes then [SchedulerStatusChanged(FarmStatus.Active)] else [])
  }

  lemma RemovalEventsContent(jid: string, relaxes: bool)
    ensures OnlyNotFound(RemovalEvents(jid, relaxes))
    ensures VmIds(RemovalEvents(jid, relaxes)) == [jid]
    ensures StatusChanges(RemovalEvents(jid, relaxes)) == if relaxes then [FarmStatus.Active] else []
  {
    var head := [VmStatusChanged(jid, LP.VmStatus.NotFound)];
    var tail := if relaxes then [SchedulerStatusChanged(FarmStatus.Active)] else [];
    TraceAppend(head, tail);
    assert head[1..] == [];
    assert tail != [] ==> tail[1..] == [];
    OnlyNotFoundAppend(head, tail);
  }

  /** One NOT_FOUND event per JID of `order`, in that order. */
  function NotFoundEvents(order: seq<string>): seq<Event>
  {
    if order == [] then []
    else [VmStatusChanged(order[0], LP.VmStatus.NotFound)] + NotFoundEvents(order[1..])
  }

  lemma {:induction false} NotFoundEventsContent(order: seq<string>)
    ensures OnlyNotFound(NotFoundEvents(order))
    ensures VmIds(NotFoundEvents(order)) == order
    ensures StatusChanges(NotFoundEvents(order)) == []
  {
    if order != [] {
      var es := NotFoundEvents(order);
      NotFoundEventsContent(order[1..]);
      assert es[0] == VmStatusChanged(order[0], LP.VmStatus.NotFound);
      assert es[1..] == NotFoundEvents(order[1..]);
      assert order == [order[0]] + order[1..];
    }
  }

  /** Removing one more VM extends a removal trace. */
  lemma RemovalTraceExtend(es: seq<Event>, gone: set<string>, relaxed: bool, jid: string, relaxes: bool)
    requires RemovalTrace(es, gone, relaxed) && jid !in gone && !(relaxed && relaxes)
    ensures RemovalTrace(es + RemovalEvents(jid, relaxes), gone + {jid}, relaxed || relaxes)
  {
    var e := RemovalEvents(jid, relaxes);
    RemovalEventsContent(jid, relaxes);
    TraceAppend(es, e);
    OnlyNotFoundAppend(es, e);
    OneMoreGone(VmIds(es), gone, jid);
  }

  lemma OneMoreGone(ids: seq<string>, gone: set<string>, jid: string)
    requires multiset(ids) == multiset(gone) && jid !in gone
    ensures multiset(ids + [jid]) == multiset(gone + {jid})
  {
    assert multiset(gone + {jid}) == multiset(gone) + multiset{jid};
  }

  // ---------------------------------------------------------------------------
  // The invariant

  /** Every registered worker's handle is below `next`, the handle the next
      spawned worker gets. */
  ghost predicate HandlesBelow(reg: map<string, Worker>, next: nat)
  {
    forall j :: j in reg ==> reg[j].handle < next
  }

  /** The next handle is not in use, and stays above every handle once the
      worker that takes it is registered. */
  lemma FreshHandle(reg: map<string, Worker>, next: nat, jid: string, w: Worker)
    requires HandlesBelow(reg, next) && w.handle == next
    ensures forall j :: j in reg ==> reg[j].handle != w.handle
    ensures HandlesBelow(reg[jid := w], next + 1)
  {
  }

  /** No two registered VMs share a worker. */
  ghost predicate HandlesDistinct(reg: map<string, Worker>)
  {
    forall j1, j2 :: j1 in reg && j2 in reg && reg[j1].handle == reg[j2].handle ==> j1 == j2
  }

  /** What every operation preserves. While the farm runs and MAX_VM is at
      least 1, the registry never exceeds MAX_VM and the status is ACTIVE_FULL
      exactly when it holds MAX_VM VMs; once TERMINATED, no VM is left. */
  ghost predicate Inv(c: Config, s: SchedulerState)
  {
    && DistinctWorkers(s.queue)
    && AllWorkersValid(s.workers)
    && HandlesDistinct(s.workers)
    && StatusFits(c.maxVm, s.status, |s.workers|)
  }

  /** Every registered worker satisfies the worker invariant. */
  ghost predicate AllWorkersValid(reg: map<string, Worker>)
  {
    forall j :: j in reg ==> WorkerInvariant(reg[j])
  }

  /** The status agrees with the number `n` of registered VMs. */
  predicate StatusFits(maxVm: int, status: FarmStatus, n: nat)
  {
    && (status == FarmStatus.Terminated ==> n == 0)
    && (status != FarmStatus.Terminated && maxVm >= 1 ==>
          n <= maxVm && (status == FarmStatus.ActiveFull <==> n == maxVm))
  }

  lemma ValidReplace(reg: map<string, Worker>, jid: string, w: Worker)
    requires AllWorkersValid(reg) && HandlesDistinct(reg) && jid in reg
    requires WorkerInvariant(w) && w.handle == reg[jid].handle
    ensures AllWorkersValid(reg[jid := w]) && HandlesDistinct(reg[jid := w])
    ensures |reg[jid := w]| == |reg|
  {
    assert reg[jid := w].Keys == reg.Keys;
  }

  lemma ValidAdd(reg: map<string, Worker>, jid: string, w: Worker)
    requires AllWorkersValid(reg) && HandlesDistinct(reg) && jid !in reg
    requires WorkerInvariant(w) && forall j :: j in reg ==> reg[j].handle != w.handle
    ensures AllWorkersValid(reg[jid := w]) && HandlesDistinct(reg[jid := w])
    ensures reg[jid := w].Keys == reg.Keys + {jid} && |reg[jid := w]| == |reg| + 1
  {
  }

  lemma ValidRemove(reg: map<string, Worker>, gone: set<string>)
    requires AllWorkersValid(reg) && HandlesDistinct(reg)
    ensures AllWorkersValid(reg - gone) && HandlesDistinct(reg - gone)
  {
  }

  // ---------------------------------------------------------------------------
  // The effect of each operation on the state

  /** The worker handles of the VMs `ids` in `reg`. */
  function HandlesOf(reg: map<string, Worker>, ids: set<string>): set<nat>
  {
    set j | j in ids && j in reg :: reg[j].handle
  }

  /** The body of `spawnVirtualMachine` once its checks pass: register `w`,
      switch to ACTIVE_FULL when the registry reaches MAX_VM, and announce
      the VM as ACTIVE. */
  ghost function Spawned(c: Config, s: SchedulerState, jid: string, w: Worker): SchedulerState
  {
    var workers := s.workers[jid := w];
    var full := c.maxVm == |workers|;
    s.(workers := workers,
       status := if full then FarmStatus.ActiveFull else s.status,
       events := s.events + SpawnEvents(jid, full))
  }

  /** The events of registering `jid`: the switch to ACTIVE_FULL when the
      farm becomes `full`, then ACTIVE for the VM. */
  function SpawnEvents(jid: string, full: bool): seq<Event>
  {
    (if full then [SchedulerStatusChanged(FarmStatus.ActiveFull)] else [])
    + [VmStatusChanged(jid, LP.VmStatus.Active)]
  }

  /** The body of `terminateVirtualMachine` after its lookup and before its
      cleanup: unregister the VM, take its worker off the queue, announce it
      NOT_FOUND, and return to ACTIVE if capacity is free again. */
  ghost function Unregistered(c: Config, s: SchedulerState, jid: string): SchedulerState
    requires jid in s.workers
  {
    var workers := s.workers - {jid};
    var relax := c.maxVm > |workers| && s.status != FarmStatus.Active;
    s.(workers := workers,
       queue := Without(s.queue, {s.workers[jid].handle}),
       status := if relax then FarmStatus.Active else s.status,
       events := s.events + RemovalEvents(jid, relax))
  }

  /** The registration of `jid` now holds the updated worker `w`. */
  ghost function Replaced(s: SchedulerState, jid: string, w: Worker): SchedulerState
  {
    s.(workers := s.workers[jid := w])
  }

  /** The body of `scheduleJob` once the job is queued on `w`: the worker is
      offered to the eligibility queue. */
  ghost function Scheduled(s: SchedulerState, jid: string, w: Worker): SchedulerState
  {
    s.(workers := s.workers[jid := w], queue := OfferDistinct(s.queue, Queued(w.handle)))
  }

  /** A worker that cannot work and has been inactive for VM_TIMEOUT. */
  predicate IdleTimedOut(c: Config, w: Worker, now: int)
  {
    !CanWork(w) && now - w.lastActive >= c.vmTimeout
  }

  predicate CleanupDue(c: Config, s: SchedulerState, now: int)
  {
    now - s.lastCleanupTime >= c.cleanupInterval
  }

  /** The VMs a cleanup pass at time `now` reclaims. */
  ghost function SweepTargets(c: Config, s: SchedulerState, now: int): set<string>
  {
    if CleanupDue(c, s, now) then set j | j in s.workers && IdleTimedOut(c, s.workers[j], now) else {}
  }

  /** `t` is `s` after the VMs `done` were unregistered one by one, in some
      order, each as `terminateVirtualMachine` does it. The status returns to
      ACTIVE once capacity is free, and the trace records the removals. */
  ghost predicate RemovedAll(c: Config, s: SchedulerState, done: set<string>, t: SchedulerState)
  {
    && done <= s.workers.Keys
    && t.workers == s.workers - done
    && t.queue == Without(s.queue, HandlesOf(s.workers, done))
    && t.status == (if done != {} && c.maxVm > |t.workers| then FarmStatus.Active else s.status)
    && t.lastCleanupTime == s.lastCleanupTime
    && |s.events| <= |t.events| && t.events[..|s.events|] == s.events
    && RemovalTrace(t.events[|s.events|..], done, t.status != s.status)
  }

  /** `t` is what a cleanup pass at time `now` leaves of `s`: the targets are
      unregistered, every other VM stays, and the time of a due pass is
      recorded. When the pass is not due, nothing changes. */
  ghost predicate Swept(c: Config, s: SchedulerState, t: SchedulerState, now: int)
  {
    && t.lastCleanupTime == (if CleanupDue(c, s, now) then now else s.lastCleanupTime)
    && RemovedAll(c, s, SweepTargets(c, s, now), t.(lastCleanupTime := s.lastCleanupTime))
  }

  /** `t` is the state `shutDown` leaves: no VM, one stop sentinel per
      sequencer thread in the queue, one NOT_FOUND event per VM that was
      registered, then the switch to TERMINATED. */
  ghost predicate ShutDownTo(c: Config, s: SchedulerState, t: SchedulerState)
  {
    && t.status == FarmStatus.Terminated
    && t.workers == map[]
    && t.queue == seq(c.numberOfSequencers, _ => Sentinel)
    && t.lastCleanupTime == s.lastCleanupTime
    && |t.events| == |s.events| + |s.workers| + 1
    && t.events[..|s.events|] == s.events
    && t.events[|t.events| - 1] == SchedulerStatusChanged(FarmStatus.Terminated)
    && RemovalTrace(t.events[|s.events|..|t.events| - 1], s.workers.Keys, false)
  }

  // ---------------------------------------------------------------------------
  // Lemmas: every effect keeps the invariant

  /** Spawning into an ACTIVE farm a VM with a fresh worker keeps the
      invariant; the registry gains exactly the new JID. */
  lemma SpawnedKeepsInv(c: Config, s: SchedulerState, jid: string, w: Worker)
    requires Inv(c, s) && s.status == FarmStatus.Active && jid !in s.workers
    requires WorkerInvariant(w) && forall j :: j in s.workers ==> s.workers[j].handle != w.handle
    ensures Inv(c, Spawned(c, s, jid, w))
    ensures Spawned(c, s, jid, w).workers.Keys == s.workers.Keys + {jid}
    ensures |Spawned(c, s, jid, w).workers| == |s.workers| + 1
  {
    ValidAdd(s.workers, jid, w);
  }

  /** The same for the scheduler's own invariant: the new worker takes the
      next fresh handle, and the handles stay below the one after it. */
  lemma SpawnedValid(c: Config, s: SchedulerState, jid: string, w: Worker, next: nat)
    requires Inv(c, s) && s.status == FarmStatus.Active && jid !in s.workers && HandlesBelow(s.workers, next)
    requires WorkerInvariant(w) && w.handle == next
    ensures Inv(c, Spawned(c, s, jid, w)) && Spawned(c, s, jid, w).status != FarmStatus.Terminated
    ensures HandlesBelow(Spawned(c, s, jid, w).workers, next + 1)
  {
    FreshHandle(s.workers, next, jid, w);
    SpawnedKeepsInv(c, s, jid, w);
  }

  /** Unregistering a VM keeps the invariant, takes its worker off the queue
      and leaves every other registration as it was. */
  lemma UnregisterKeepsInv(c: Config, s: SchedulerState, jid: string)
    requires Inv(c, s) && s.status != FarmStatus.Terminated && jid in s.workers
    ensures Inv(c, Unregistered(c, s, jid))
    ensures Unregistered(c, s, jid).workers.Keys == s.workers.Keys - {jid}
    ensures multiset(Unregistered(c, s, jid).queue)[Queued(s.workers[jid].handle)] == 0
    ensures Unregistered(c, s, jid).status != FarmStatus.Terminated
    ensures forall j :: j in Unregistered(c, s, jid).workers ==> Unregistered(c, s, jid).workers[j] == s.workers[j]
  {
    WithoutKeepsDistinct(s.queue, {s.workers[jid].handle});
    ValidRemove(s.workers, {jid});
  }

  /** Replacing a worker by an updated one with the same handle keeps the
      invariant. */
  lemma ReplacedKeepsInv(c: Config, s: SchedulerState, jid: string, w: Worker)
    requires Inv(c, s) && jid in s.workers && WorkerInvariant(w) && w.handle == s.workers[jid].handle
    ensures Inv(c, Replaced(s, jid, w))
  {
    ValidReplace(s.workers, jid, w);
  }

  /** Scheduling keeps the invariant and puts the worker in the queue
      exactly once. */
  lemma ScheduledKeepsInv(c: Config, s: SchedulerState, jid: string, w: Worker)
    requires Inv(c, s) && jid in s.workers && WorkerInvariant(w) && w.handle == s.workers[jid].handle
    ensures Inv(c, Scheduled(s, jid, w))
    ensures multiset(Scheduled(s, jid, w).queue)[Queued(w.handle)] == 1
  {
    ReplacedKeepsInv(c, s, jid, w);
    OfferDistinctKeepsDistinct(s.queue, w.handle);
  }

  /** A cleanup pass keeps the invariant and removes exactly the VMs that
      cannot work and have been inactive for VM_TIMEOUT (when it is due). */
  lemma SweptKeepsInv(c: Config, s: SchedulerState, t: SchedulerState, now: int)
    requires Inv(c, s) && s.status != FarmStatus.Terminated && Swept(c, s, t, now)
    ensures Inv(c, t) && t.status != FarmStatus.Terminated
    ensures forall j :: j in s.workers ==>
              (j !in t.workers <==> CleanupDue(c, s, now) && IdleTimedOut(c, s.workers[j], now))
    ensures forall j :: j in t.workers ==> j in s.workers && t.workers[j] == s.workers[j]
  {
    var gone := SweepTargets(c, s, now);
    WithoutKeepsDistinct(s.queue, HandlesOf(s.workers, gone));
    ValidRemove(s.workers, gone);
    assert t.workers.Keys == s.workers.Keys - gone;
    if gone != {} {
      var g :| g in gone;
      assert g in s.workers.Keys && g !in t.workers.Keys;
      assert t.workers.Keys < s.workers.Keys;
      assert |t.workers.Keys| < |s.workers.Keys|;
    }
  }

  /** Every VM of `s` that can work is still registered in `t` with the same
      worker, and its worker holds as many places in the queue as before. */
  ghost predicate SparesWorking(s: SchedulerState, t: SchedulerState)
  {
    forall j :: j in s.workers && CanWork(s.workers[j]) ==>
      && j in t.workers && t.workers[j] == s.workers[j]
      && multiset(t.queue)[Queued(s.workers[j].handle)] == multiset(s.queue)[Queued(s.workers[j].handle)]
  }

  /** A cleanup pass never reclaims a VM that has queued jobs, nor takes its
      worker off the queue. */
  lemma SweptSparesWorking(c: Config, s: SchedulerState, t: SchedulerState, now: int)
    requires HandlesDistinct(s.workers) && Swept(c, s, t, now)
    ensures SparesWorking(s, t)
  {
    var gone := SweepTargets(c, s, now);
    forall j | j in s.workers && CanWork(s.workers[j])
      ensures j in t.workers && t.workers[j] == s.workers[j]
      ensures multiset(t.queue)[Queued(s.workers[j].handle)] == multiset(s.queue)[Queued(s.workers[j].handle)]
    {
      assert j !in gone;
      forall g | g in gone && g in s.workers
        ensures s.workers[g].handle != s.workers[j].handle
      {
        assert g != j;
      }
      assert s.workers[j].handle !in HandlesOf(s.workers, gone);
    }
  }

  /** Removing nothing is the identity. */
  lemma RemovedNone(c: Config, s: SchedulerState)
    ensures RemovedAll(c, s, {}, s)
  {
    WithoutNothing(s.queue);
    assert HandlesOf(s.workers, {}) == {};
    assert s.workers - {} == s.workers;
    assert s.events[|s.events|..] == [];
  }

  /** Unregistering one more target extends a partial sweep. */
  lemma RemovedOneMore(c: Config, s: SchedulerState, done: set<string>, t: SchedulerState, jid: string)
    requires RemovedAll(c, s, done, t) && jid in s.workers && jid !in done
    ensures jid in t.workers
    ensures RemovedAll(c, s, done + {jid}, Unregistered(c, t, jid))
  {
    RegistryStep(s.workers, done, jid);
    QueueStep(s.queue, s.workers, done, jid);
    StatusStep(c.maxVm, s.status, t.status, done != {}, |t.workers|);
    TraceStep(s.events, t.events, done, t.status != s.status, jid,
              c.maxVm > |t.workers| - 1 && t.status != FarmStatus.Active);
  }

  /** The status arithmetic of one more removal, on `n` registered VMs. */
  lemma StatusStep(maxVm: int, initial: FarmStatus, current: FarmStatus, removedSome: bool, n: nat)
    requires n >= 1
    requires current == (if removedSome && maxVm > n then FarmStatus.Active else initial)
    ensures var relaxes := maxVm > n - 1 && current != FarmStatus.Active;
            && (if relaxes then FarmStatus.Active else current) == (if maxVm > n - 1 then FarmStatus.Active else initial)
            && !(current != initial && relaxes)
            && ((if relaxes then FarmStatus.Active else current) != initial) == (current != initial || relaxes)
  {
  }

  /** The trace of one more removal. */
  lemma TraceStep(initial: seq<Event>, current: seq<Event>, done: set<string>, relaxed: bool,
                  jid: string, relaxes: bool)
    requires |initial| <= |current| && current[..|initial|] == initial
    requires RemovalTrace(current[|initial|..], done, relaxed) && jid !in done && !(relaxed && relaxes)
    ensures |initial| <= |current + RemovalEvents(jid, relaxes)|
    ensures (current + RemovalEvents(jid, relaxes))[..|initial|] == initial
    ensures RemovalTrace((current + RemovalEvents(jid, relaxes))[|initial|..], done + {jid}, relaxed || relaxes)
  {
    SliceAppend(current, RemovalEvents(jid, relaxes), |initial|);
    RemovalTraceExtend(current[|initial|..], done, relaxed, jid, relaxes);
  }

  lemma SliceAppend<T>(a: seq<T>, b: seq<T>, k: nat)
    requires k <= |a|
    ensures (a + b)[..k] == a[..k] && (a + b)[k..] == a[k..] + b
  {
  }

  lemma RegistryStep(reg: map<string, Worker>, done: set<string>, jid: string)
    requires jid in reg && jid !in done
    ensures jid in reg - done && (reg - done)[jid] == reg[jid]
    ensures (reg - done) - {jid} == reg - (done + {jid})
    ensures |(reg - done) - {jid}| == |reg - done| - 1
  {
  }

  lemma QueueStep(q: seq<QueueEntry>, reg: map<string, Worker>, done: set<string>, jid: string)
    requires jid in reg
    ensures Without(Without(q, HandlesOf(reg, done)), {reg[jid].handle}) == Without(q, HandlesOf(reg, done + {jid}))
  {
    WithoutTwice(q, HandlesOf(reg, done), {reg[jid].handle});
    assert HandlesOf(reg, done + {jid}) == HandlesOf(reg, done) + {reg[jid].handle};
  }

  /** The elements of `ids`. */
  function Elements(ids: seq<string>): set<string>
  {
    set x | x in ids
  }

  /** No JID occurs twice in `ids`. */
  predicate Distinct(ids: seq<string>)
  {
    forall i, j :: 0 <= i < j < |ids| ==> ids[i] != ids[j]
  }

  /** Terminating the VMs `ids` in this order; one that is no longer
      registered is skipped, as the source ignores VMWorkerNotFoundException
      there. */
  ghost function UnregisterAll(c: Config, s: SchedulerState, ids: seq<string>): SchedulerState
    decreases |ids|
  {
    if ids == [] then s
    else
      var t := UnregisterAll(c, s, ids[..|ids| - 1]);
      var jid := ids[|ids| - 1];
      if jid in t.workers then Unregistered(c, t, jid) else t
  }

  /** Terminating distinct registered VMs one by one, in any order, removes
      exactly them. */
  lemma {:induction false} UnregisterAllRemoves(c: Config, s: SchedulerState, ids: seq<string>)
    requires Distinct(ids) && Elements(ids) <= s.workers.Keys
    ensures RemovedAll(c, s, Elements(ids), UnregisterAll(c, s, ids))
  {
    if ids == [] {
      assert Elements(ids) == {};
      RemovedNone(c, s);
    } else {
      var init := ids[..|ids| - 1];
      var jid := ids[|ids| - 1];
      assert Elements(ids) == Elements(init) + {jid} by {
        assert ids == init + [jid];
      }
      assert jid !in Elements(init);
      UnregisterAllRemoves(c, s, init);
      RemovedOneMore(c, s, Elements(init), UnregisterAll(c, s, init), jid);
    }
  }

  /** A due cleanup pass that terminates the VMs `ids` in order and then
      records the time. */
  ghost function Cleaned(c: Config, s: SchedulerState, ids: seq<string>, now: int): SchedulerState
  {
    UnregisterAll(c, s, ids).(lastCleanupTime := now)
  }

  /** Terminating, in any order, exactly the VMs the scan selects is a
      cleanup pass. */
  lemma CleanedSweeps(c: Config, s: SchedulerState, ids: seq<string>, now: int)
    requires CleanupDue(c, s, now)
    requires Distinct(ids) && Elements(ids) == set j | j in s.workers && IdleTimedOut(c, s.workers[j], now)
    ensures Swept(c, s, Cleaned(c, s, ids, now), now)
  {
    var u := UnregisterAll(c, s, ids);
    UnregisterAllRemoves(c, s, ids);
    assert u.lastCleanupTime == s.lastCleanupTime;
    assert Cleaned(c, s, ids, now).(lastCleanupTime := s.lastCleanupTime) == u;
    assert SweepTargets(c, s, now) == Elements(ids);
  }

  /** The state `shutDown` leaves when it announces the removals `trace`. */
  ghost function ShutDownState(c: Config, s: SchedulerState, trace: seq<Event>): SchedulerState
  {
    s.(status := FarmStatus.Terminated,
       workers := map[],
       queue := seq(c.numberOfSequencers, _ => Sentinel),
       events := s.events + trace + [SchedulerStatusChanged(FarmStatus.Terminated)])
  }

  /** Announcing every registered VM as NOT_FOUND and then switching to
      TERMINATED is a shutdown, and it keeps the invariant. */
  lemma ShutDownStateIsShutDown(c: Config, s: SchedulerState, trace: seq<Event>)
    requires RemovalTrace(trace, s.workers.Keys, false)
    ensures ShutDownTo(c, s, ShutDownState(c, s, trace))
    ensures Inv(c, ShutDownState(c, s, trace))
  {
    var t := ShutDownState(c, s, trace);
    TraceLength(trace);
    assert |VmIds(trace)| == |multiset(VmIds(trace))| == |multiset(s.workers.Keys)| == |s.workers.Keys|;
    assert t.events[..|s.events|] == s.events;
    assert t.events[|s.events|..|t.events| - 1] == trace;
    ShutDownKeepsInv(c, s, t);
  }

  /** What `cleanup` leaves of `s` at time `now` when its scan lists the
      VMs `ids`: they are terminated in order and the time is recorded, or,
      when the pass is not due, nothing changes. */
  ghost function CleanupResult(c: Config, s: SchedulerState, ids: seq<string>, now: int): SchedulerState
  {
    if CleanupDue(c, s, now) then Cleaned(c, s, ids, now) else s
  }

  /** A cleanup pass whose scan lists each selected VM once is a sweep, and
      it keeps the invariant, including the bound on handles. */
  lemma CleanupSound(c: Config, s: SchedulerState, ids: seq<string>, now: int, next: nat)
    requires Inv(c, s) && s.status != FarmStatus.Terminated && HandlesBelow(s.workers, next)
    requires CleanupDue(c, s, now) ==>
               Distinct(ids) && Elements(ids) == set j | j in s.workers && IdleTimedOut(c, s.workers[j], now)
    ensures Swept(c, s, CleanupResult(c, s, ids, now), now)
    ensures Inv(c, CleanupResult(c, s, ids, now)) && CleanupResult(c, s, ids, now).status != FarmStatus.Terminated
    ensures HandlesBelow(CleanupResult(c, s, ids, now).workers, next)
    ensures SparesWorking(s, CleanupResult(c, s, ids, now))
  {
    if CleanupDue(c, s, now) {
      CleanedSweeps(c, s, ids, now);
    } else {
      RemovedNone(c, s);
      assert s.(lastCleanupTime := s.lastCleanupTime) == s;
    }
    SweptKeepsInv(c, s, CleanupResult(c, s, ids, now), now);
    SweptSparesWorking(c, s, CleanupResult(c, s, ids, now), now);
  }

  /** Shutting down ends in a state that satisfies the invariant. */
  lemma ShutDownKeepsInv(c: Config, s: SchedulerState, t: SchedulerState)
    requires ShutDownTo(c, s, t)
    ensures Inv(c, t)
  {
    forall h: nat ensures multiset(t.queue)[Queued(h)] <= 1 {
      assert Queued(h) !in t.queue;
    }
  }
}
