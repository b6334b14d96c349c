/** The bookkeeping of `VMScheduler`: a registry of VMs by JID, a FIFO queue of
    workers eligible for a time slice (each at most once), a farm status with a
    capacity limit, job counters, and the lazy reclamation of idle VMs.

    Every public operation of the source is `synchronized`, so the class is a
    sequential state machine. The clock is the `now` parameter of the
    operations that run the cleanup pass; the status events sent to the event
    handler are the ghost trace `events`. */
module Scheduler {
  import opened Wrappers
  import LP = LinkedProcess
  import opened Workers
  import opened SchedulerModel

  class VMScheduler {
    const config: Config

    var status: FarmStatus
    var workersByJID: map<string, Worker>
    var workerQueue: seq<QueueEntry>
    var jobsReceived: nat
    var jobsCompleted: nat
    var lastCleanupTime: int
    /** The handle the next spawned worker gets (stands for object identity). */
    var nextHandle: nat
    ghost var events: seq<Event>

    ghost function State(): SchedulerState
      reads this`status, this`workersByJID, this`workerQueue, this`lastCleanupTime, this`events
    {
      SchedulerState(status, workersByJID, workerQueue, lastCleanupTime, events)
    }

    ghost predicate Valid()
      reads this`status, this`workersByJID, this`workerQueue, this`lastCleanupTime, this`events, this`nextHandle
    {
      && Inv(config, State())
      && HandlesBelow(workersByJID, nextHandle)
    }

    /** The constructor, leaving out the sequencer threads it starts. */
    constructor (config: Config, now: int)
      ensures Valid() && this.config == config
      ensures status == FarmStatus.Active && workersByJID == map[] && workerQueue == []
      ensures jobsReceived == 0 && jobsCompleted == 0 && lastCleanupTime == now
      ensures events == [SchedulerStatusChanged(FarmStatus.Active)]
    {
      this.config := config;
      status := FarmStatus.Active;
      workersByJID := map[];
      workerQueue := [];
      jobsReceived, jobsCompleted := 0, 0;
      lastCleanupTime := now;
      nextHandle := 0;
      events := [SchedulerStatusChanged(FarmStatus.Active)];
    }

    /** `terminateVirtualMachine` from the lookup on, without its cleanup. */
    method Unregister(jid: string)
      requires jid in workersByJID
      modifies this`status, this`workersByJID, this`workerQueue, this`events
      ensures State() == Unregistered(config, old(State()), jid)
    {
      ghost var s0 := State();
      var w := workersByJID[jid];
      var rest := workersByJID - {jid};
      var relax := config.maxVm > |rest| && status != FarmStatus.Active;
      workersByJID := rest;
      workerQueue := Without(workerQueue, {w.handle});
      status := if relax then FarmStatus.Active else status;
      events := events + RemovalEvents(jid, relax);
      assert State() == Unregistered(config, s0, jid);
    }

    /** Store the updated worker `w` under `jid`. The registry holds the
        worker object itself, so a change to a registered worker is a change
        of its registration. */
    method Replace(jid: string, w: Worker)
      requires Valid() && jid in workersByJID
      requires WorkerInvariant(w) && w.handle == workersByJID[jid].handle
      modifies this`workersByJID
      ensures Valid()
      ensures State() == Replaced(old(State()), jid, w)
    {
      ghost var s0 := State();
      workersByJID := workersByJID[jid := w];
      assert State() == Replaced(s0, jid, w);
      ReplacedKeepsInv(config, s0, jid, w);
    }

    /** The scan of `cleanup`: the list of VMs that cannot work and have
        been inactive for VM_TIMEOUT at time `now`, in the registry's
        iteration order. */
    method IdleTimedOutVms(now: int) returns (toShutDown: seq<string>)
      ensures Distinct(toShutDown)
      ensures Elements(toShutDown) == set j | j in workersByJID && IdleTimedOut(config, workersByJID[j], now)
    {
      toShutDown := [];
      var unscanned := workersByJID.Keys;
      while unscanned != {}
        invariant unscanned <= workersByJID.Keys && Distinct(toShutDown)
        invariant Elements(toShutDown) == set j | j in workersByJID && j !in unscanned && IdleTimedOut(config, workersByJID[j], now)
        decreases unscanned
      {
        var jid :| jid in unscanned;
        var w := workersByJID[jid];
        if !CanWork(w) && now - w.lastActive >= config.vmTimeout {
          assert Elements(toShutDown + [jid]) == Elements(toShutDown) + {jid};
          toShutDown := toShutDown + [jid];
        }
        unscanned := unscanned - {jid};
      }
    }

    /** The second loop of `cleanup`: terminate each of `targets` in order as
        `terminateVirtualMachine` does it, skipping one that is already gone. */
    method TerminateAll(targets: seq<string>)
      modifies this`status, this`workersByJID, this`workerQueue, this`events
      ensures State() == UnregisterAll(config, old(State()), targets)
    {
      ghost var s0 := State();
      var i := 0;
      while i < |targets|
        invariant 0 <= i <= |targets|
        invariant State() == UnregisterAll(config, s0, targets[..i])
      {
        var jid := targets[i];
        // The source ignores a VMWorkerNotFoundException here.
        if jid in workersByJID {
          Unregister(jid);
        }
        assert targets[..i + 1][..i] == targets[..i];
        i := i + 1;
      }
      assert targets[..i] == targets;
    }

    /** `cleanup` at time `now`: when SCHEDULER_CLEANUP_INTERVAL has passed
        since the last pass, collect the VMs that cannot work and have been
        inactive for VM_TIMEOUT, then terminate each of them. */
    method Cleanup(now: int)
      requires Valid() && status != FarmStatus.Terminated
      modifies this`status, this`workersByJID, this`workerQueue, this`events, this`lastCleanupTime
      ensures Valid() && status != FarmStatus.Terminated
      ensures Swept(config, old(State()), State(), now)
      ensures SparesWorking(old(State()), State())
    {
      ghost var s0 := State();
      ghost var listed: seq<string> := [];
      if now - lastCleanupTime >= config.cleanupInterval {
        var toShutDown := IdleTimedOutVms(now);
        TerminateAll(toShutDown);
        lastCleanupTime := now;
        listed := toShutDown;
      }
      assert State() == CleanupResult(config, s0, listed, now);
      CleanupSound(config, s0, listed, now, nextHandle);
    }

    /** `scheduleJob`: count the submission, queue the job on the VM's worker
        and make the worker eligible for a time slice, then clean up. */
    method ScheduleJob(jid: string, jobId: string, now: int) returns (r: Outcome<SchedulerError>)
      requires Valid()
      modifies this`jobsReceived, this`status, this`workersByJID, this`workerQueue, this`events, this`lastCleanupTime
      ensures Valid()
      ensures old(status) == FarmStatus.Terminated ==> r == Fail(IllegalState)
      ensures jobsReceived == if old(status) == FarmStatus.Terminated then old(jobsReceived) else old(jobsReceived) + 1
      ensures old(status) != FarmStatus.Terminated && jid !in old(workersByJID) ==> r == Fail(VMWorkerNotFound)
      ensures old(status) != FarmStatus.Terminated && jid in old(workersByJID) ==>
                r == match AddJob(old(workersByJID)[jid], jobId)
                     case Failure(JobAlreadyQueued) => Fail(JobAlreadyExists)
                     case Failure(QueueIsFull) => Fail(VMWorkerIsFull)
                     case Success(_) => Pass
      ensures r.Fail? ==> State() == old(State())
      ensures r.Pass? ==> Swept(config, Scheduled(old(State()), jid, AddJob(old(workersByJID)[jid], jobId).value), State(), now)
      ensures r.Pass? ==> jid in workersByJID && JobExists(workersByJID[jid], jobId)
      ensures r.Pass? ==> multiset(workerQueue)[Queued(old(workersByJID)[jid].handle)] == 1
    {
      if status == FarmStatus.Terminated {
        return Fail(IllegalState);
      }
      jobsReceived := jobsReceived + 1;
      var found := GetWorkerByJID(jid);
      if found.Failure? {
        return Fail(found.error);
      }
      var added := AddJob(found.value, jobId);
      if added.Failure? {
        return if added.error == JobAlreadyQueued then Fail(JobAlreadyExists) else Fail(VMWorkerIsFull);
      }
      QueueJob(jid, added.value, now);
      r := Pass;
    }

    /** The rest of `scheduleJob` once the job is on the worker `w`: register
        the updated worker, offer it to the queue, then clean up. */
    method QueueJob(jid: string, w: Worker, now: int)
      requires Valid() && status != FarmStatus.Terminated && jid in workersByJID
      requires WorkerInvariant(w) && CanWork(w) && w.handle == workersByJID[jid].handle
      modifies this`status, this`workersByJID, this`workerQueue, this`events, this`lastCleanupTime
      ensures Valid()
      ensures Swept(config, Scheduled(old(State()), jid, w), State(), now)
      ensures jid in workersByJID && workersByJID[jid] == w
      ensures multiset(workerQueue)[Queued(w.handle)] == 1
    {
      ghost var s0 := State();
      workersByJID := workersByJID[jid := w];
      workerQueue := OfferDistinct(workerQueue, Queued(w.handle));
      ghost var s1 := State();
      assert s1 == Scheduled(s0, jid, w);
      ScheduledKeepsInv(config, s0, jid, w);
      Cleanup(now);
      assert s1.workers[jid] == w && CanWork(s1.workers[jid]);
    }

    /** `abortJob`: cancel a queued job of a VM, then clean up. */
    method AbortJob(jid: string, jobId: string, now: int) returns (r: Outcome<SchedulerError>)
      requires Valid()
      modifies this`status, this`workersByJID, this`workerQueue, this`events, this`lastCleanupTime
      ensures Valid()
      ensures old(status) == FarmStatus.Terminated ==> r == Fail(IllegalState)
      ensures old(status) != FarmStatus.Terminated ==>
                r == if jid !in old(workersByJID) then Fail(VMWorkerNotFound)
                     else if !JobExists(old(workersByJID)[jid], jobId) then Fail(JobNotFound)
                     else Pass
      ensures r.Fail? ==> unchanged(this)
      ensures r.Pass? ==> Swept(config, Replaced(old(State()), jid, Workers.AbortJob(old(workersByJID)[jid], jobId).value), State(), now)
    {
      if status == FarmStatus.Terminated {
        return Fail(IllegalState);
      }
      var found := GetWorkerByJID(jid);
      if found.Failure? {
        return Fail(found.error);
      }
      var aborted := Workers.AbortJob(found.value, jobId);
      if aborted.None? {
        return Fail(JobNotFound);
      }
      Replace(jid, aborted.value);
      Cleanup(now);
      r := Pass;
    }

    /** `spawnVirtualMachine`: the checks in the source's order, then register
        a fresh worker, then clean up. */
    method SpawnVirtualMachine(jid: string, species: string, now: int) returns (r: Outcome<SchedulerError>)
      requires Valid()
      modifies this`nextHandle, this`status, this`workersByJID, this`workerQueue, this`events, this`lastCleanupTime
      ensures Valid()
      ensures old(status) == FarmStatus.Terminated ==> r == Fail(IllegalState)
      ensures old(status) == FarmStatus.ActiveFull ==> r == Fail(SchedulerIsFull)
      ensures old(status) == FarmStatus.Active ==>
                r == if jid == "" then Fail(IllegalArgument)
                     else if species == "" then Fail(UnsupportedScriptEngine)
                     else if jid in old(workersByJID) then Fail(VMAlreadyExists)
                     else if species !in config.supportedSpecies then Fail(UnsupportedScriptEngine)
                     else Pass
      ensures r.Fail? ==> unchanged(this)
      ensures r.Pass? ==>
                && nextHandle == old(nextHandle) + 1
                && Swept(config,
                         Spawned(config, old(State()), jid,
                                 Worker(old(nextHandle), species, [], config.jobQueueCapacity, now,
                                        WorkerStatus.Active, map[])),
                         State(), now)
    {
      if status == FarmStatus.Terminated {
        return Fail(IllegalState);
      }
      if status == FarmStatus.ActiveFull {
        return Fail(SchedulerIsFull);
      }
      if jid == "" {
        return Fail(IllegalArgument);
      }
      if species == "" {
        return Fail(UnsupportedScriptEngine);
      }
      if jid in workersByJID {
        return Fail(VMAlreadyExists);
      }
      if species !in config.supportedSpecies {
        return Fail(UnsupportedScriptEngine);
      }
      var w := Worker(nextHandle, species, [], config.jobQueueCapacity, now, WorkerStatus.Active, map[]);
      Register(jid, w, now);
      r := Pass;
    }

    /** The rest of `spawnVirtualMachine` once its checks pass: register the
        fresh worker `w`, announce the VM, then clean up. */
    method Register(jid: string, w: Worker, now: int)
      requires Valid() && status == FarmStatus.Active && jid !in workersByJID
      requires WorkerInvariant(w) && w.handle == nextHandle
      modifies this`nextHandle, this`status, this`workersByJID, this`workerQueue, this`events, this`lastCleanupTime
      ensures Valid() && nextHandle == old(nextHandle) + 1
      ensures Swept(config, Spawned(config, old(State()), jid, w), State(), now)
    {
      ghost var s0 := State();
      SpawnedValid(config, s0, jid, w, nextHandle);
      nextHandle := nextHandle + 1;
      var full := config.maxVm == |workersByJID[jid := w]|;
      workersByJID := workersByJID[jid := w];
      status := if full then FarmStatus.ActiveFull else status;
      events := events + SpawnEvents(jid, full);
      assert State() == Spawned(config, s0, jid, w);
      Cleanup(now);
    }

    /** `terminateVirtualMachine`: unregister the VM, then clean up. */
    method TerminateVirtualMachine(jid: string, now: int) returns (r: Outcome<SchedulerError>)
      requires Valid()
      modifies this`status, this`workersByJID, this`workerQueue, this`events, this`lastCleanupTime
      ensures Valid()
      ensures old(status) == FarmStatus.Terminated ==> r == Fail(IllegalState)
      ensures old(status) != FarmStatus.Terminated ==>
                r == if jid in old(workersByJID) then Pass else Fail(VMWorkerNotFound)
      ensures r.Fail? ==> unchanged(this)
      ensures r.Pass? ==> Swept(config, Unregistered(config, old(State()), jid), State(), now)
      ensures r.Pass? ==> jid !in workersByJID
    {
      if status == FarmStatus.Terminated {
        return Fail(IllegalState);
      }
      var found := GetWorkerByJID(jid);
      if found.Failure? {
        return Fail(found.error);
      }
      ghost var s0 := State();
      Unregister(jid);
      UnregisterKeepsInv(config, s0, jid);
      Cleanup(now);
      r := Pass;
    }

    /** `getSchedulerStatus`. */
    method GetSchedulerStatus() returns (s: FarmStatus)
      requires Valid()
      ensures s == status
      ensures s != FarmStatus.Terminated && config.maxVm >= 1 ==>
                (s == FarmStatus.ActiveFull <==> |workersByJID| == config.maxVm)
      ensures s == FarmStatus.Terminated ==> workersByJID == map[]
    {
      s := status;
    }

    /** `getVirtualMachineStatus`: ACTIVE for a registered VM, NOT_FOUND
        otherwise. */
    method GetVirtualMachineStatus(jid: string) returns (s: LP.VmStatus)
      ensures s == LP.VmStatus.Active <==> jid in workersByJID
      ensures s != LP.VmStatus.Active ==> s == LP.VmStatus.NotFound
    {
      s := if jid in workersByJID then LP.VmStatus.Active else LP.VmStatus.NotFound;
    }

    /** `getJobStatus`: IN_PROGRESS while the job is queued on the VM. */
    method GetJobStatus(jid: string, jobId: string) returns (r: Result<LP.JobStatus, SchedulerError>)
      ensures jid !in workersByJID ==> r == Failure(VMWorkerNotFound)
      ensures jid in workersByJID ==>
                (r == Success(LP.JobStatus.InProgress) <==> JobExists(workersByJID[jid], jobId))
      ensures jid in workersByJID && r.Failure? ==> r.error == JobNotFound
    {
      if jid !in workersByJID {
        return Failure(VMWorkerNotFound);
      }
      if JobExists(workersByJID[jid], jobId) {
        r := Success(LP.JobStatus.InProgress);
      } else {
        r := Failure(JobNotFound);
      }
    }

    /** `getBindings`: the requested bindings of the VM. */
    method GetBindings(jid: string, names: set<string>) returns (r: Result<Bindings, SchedulerError>)
      ensures status == FarmStatus.Terminated ==> r == Failure(IllegalState)
      ensures status != FarmStatus.Terminated && jid !in workersByJID ==> r == Failure(VMWorkerNotFound)
      ensures status != FarmStatus.Terminated && jid in workersByJID ==>
                r.Success? && r.value.Keys == names * workersByJID[jid].bindings.Keys
                && forall n :: n in r.value ==> r.value[n] == workersByJID[jid].bindings[n]
    {
      if status == FarmStatus.Terminated {
        return Failure(IllegalState);
      }
      var found := GetWorkerByJID(jid);
      if found.Failure? {
        return Failure(found.error);
      }
      r := Success(Workers.GetBindings(found.value, names));
    }

    /** `setBindings`: merge new bindings into the VM's. No cleanup runs. */
    method SetBindings(jid: string, update: Bindings) returns (r: Outcome<SchedulerError>)
      requires Valid()
      modifies this`workersByJID
      ensures Valid()
      ensures old(status) == FarmStatus.Terminated ==> r == Fail(IllegalState)
      ensures old(status) != FarmStatus.Terminated ==>
                r == if jid in old(workersByJID) then Pass else Fail(VMWorkerNotFound)
      ensures r.Fail? ==> unchanged(this)
      ensures r.Pass? ==> State() == Replaced(old(State()), jid, Workers.SetBindings(old(workersByJID)[jid], update))
    {
      if status == FarmStatus.Terminated {
        return Fail(IllegalState);
      }
      var found := GetWorkerByJID(jid);
      if found.Failure? {
        return Fail(found.error);
      }
      Replace(jid, Workers.SetBindings(found.value, update));
      r := Pass;
    }

    /** The first loop of `shutDown`: one stop sentinel per sequencer
        thread. */
    method StopSentinels() returns (queue: seq<QueueEntry>)
      ensures |queue| == config.numberOfSequencers
      ensures forall k :: 0 <= k < |queue| ==> queue[k] == Sentinel
    {
      queue := [];
      var i := 0;
      while i < config.numberOfSequencers
        invariant 0 <= i <= config.numberOfSequencers
        invariant |queue| == i && forall k :: 0 <= k < i ==> queue[k] == Sentinel
      {
        queue := queue + [Sentinel];
        i := i + 1;
      }
    }

    /** The second loop of `shutDown`: each registered VM, in the registry's
        iteration order, is announced NOT_FOUND. The worker's own shutdown is
        not part of this model. */
    method AnnounceRemovals() returns (ghost trace: seq<Event>)
      ensures RemovalTrace(trace, workersByJID.Keys, false)
    {
      var unvisited := workersByJID.Keys;
      ghost var visited: set<string> := {};
      ghost var order: seq<string> := [];
      while unvisited != {}
        invariant visited !! unvisited && visited + unvisited == workersByJID.Keys
        invariant multiset(order) == multiset(visited)
        decreases unvisited
      {
        var jid :| jid in unvisited;
        OneMoreGone(order, visited, jid);
        order := order + [jid];
        visited := visited + {jid};
        unvisited := unvisited - {jid};
      }
      trace := NotFoundEvents(order);
      NotFoundEventsContent(order);
      assert visited == workersByJID.Keys;
    }

    /** `shutDown`: replace the queue by one stop sentinel per sequencer,
        announce every VM as NOT_FOUND, empty the registry and switch to
        TERMINATED. It has no guard: a second call repeats the same steps on
        an empty registry. */
    method ShutDown()
      modifies this`status, this`workersByJID, this`workerQueue, this`events
      ensures Valid()
      ensures ShutDownTo(config, old(State()), State())
    {
      ghost var s0 := State();
      var queue := StopSentinels();
      assert queue == seq(config.numberOfSequencers, _ => Sentinel);
      ghost var trace := AnnounceRemovals();
      workerQueue := queue;
      workersByJID := map[];
      status := FarmStatus.Terminated;
      events := events + trace + [SchedulerStatusChanged(FarmStatus.Terminated)];
      assert State() == ShutDownState(config, s0, trace);
      ShutDownStateIsShutDown(config, s0, trace);
    }

    /** The sequencers' hand-back (`putBackWorker`) of a worker `w` after its
        time slice. The registry and the sequencer share one worker object,
        so the registration `holder` that holds `w` (compared by identity)
        sees the worker as the slice left it. A worker that crashed (status
        TERMINATED) has that registration terminated through
        `terminateVirtualMachine`; a worker that is not idle is then offered
        to the queue again. `mid` is the state before the re-offer. */
    method PutBackWorker(w: Worker, idle: bool, now: int) returns (ghost holder: Option<string>, ghost mid: SchedulerState)
      requires Valid()
      requires w.status == WorkerStatus.Active ==> WorkerInvariant(w)
      modifies this`status, this`workersByJID, this`workerQueue, this`events, this`lastCleanupTime
      ensures Valid()
      ensures holder.None? <==> forall j :: j in old(workersByJID) ==> old(workersByJID)[j].handle != w.handle
      ensures holder.Some? ==> holder.value in old(workersByJID) && old(workersByJID)[holder.value].handle == w.handle
      ensures holder.None? ==> mid == old(State())
      ensures holder.Some? && w.status == WorkerStatus.Active ==> mid == Replaced(old(State()), holder.value, w)
      ensures holder.Some? && w.status == WorkerStatus.Terminated ==>
                Swept(config, Unregistered(config, old(State()), holder.value), mid, now)
      ensures State() == if idle then mid else mid.(queue := OfferDistinct(mid.queue, Queued(w.handle)))
      ensures !idle ==> multiset(workerQueue)[Queued(w.handle)] == 1
    {
      var found := FindRegistration(w);
      holder := found;
      if found.Some? {
        if w.status == WorkerStatus.Terminated {
          var _ := TerminateVirtualMachine(found.value, now);
        } else {
          // The registration shares the worker object the slice changed.
          Replace(found.value, w);
        }
      }
      mid := State();
      if !idle {
        ghost var before := workerQueue;
        workerQueue := OfferDistinct(workerQueue, Queued(w.handle));
        OfferDistinctKeepsDistinct(before, w.handle);
      }
    }

    /** `getWorkerByJID`: the worker registered under `jid`, or
        VMWorkerNotFound. */
    method GetWorkerByJID(jid: string) returns (r: Result<Worker, SchedulerError>)
      ensures r.Success? <==> jid in workersByJID
      ensures r.Success? ==> r.value == workersByJID[jid]
      ensures r.Failure? ==> r.error == VMWorkerNotFound
    {
      if jid !in workersByJID {
        return Failure(VMWorkerNotFound);
      }
      r := Success(workersByJID[jid]);
    }

    /** The search of `putBackWorker` for the registration that holds the
        worker `w` itself (compared by identity). */
    method FindRegistration(w: Worker) returns (found: Option<string>)
      ensures found.Some? ==> found.value in workersByJID && workersByJID[found.value].handle == w.handle
      ensures found.None? <==> forall j :: j in workersByJID ==> workersByJID[j].handle != w.handle
    {
      var unvisited := workersByJID.Keys;
      found := None;
      while unvisited != {} && found.None?
        invariant unvisited <= workersByJID.Keys
        invariant found.None? ==> forall j :: j in workersByJID && j !in unvisited ==> workersByJID[j].handle != w.handle
        invariant found.Some? ==> found.value in workersByJID && workersByJID[found.value].handle == w.handle
        decreases unvisited
      {
        var jid :| jid in unvisited;
        if workersByJID[jid].handle == w.handle {
          found := Some(jid);
        }
        unvisited := unvisited - {jid};
      }
    }

    /** `ResultCounter.handleResult`: every job result delivered to the result
        handler is counted once. */
    method CountResult()
      modifies this`jobsCompleted
      ensures jobsCompleted == old(jobsCompleted) + 1
    {
      jobsCompleted := jobsCompleted + 1;
    }
  }
}
