# LinkedProcess VM scheduler, modelled in Dafny

This project models two parts of the LinkedProcess farm:

- **The `VMScheduler` bookkeeping**, as an imperative class `Scheduler.VMScheduler`. Its parts are:
  - the registry of virtual machines (VMs) by JID;
  - the FIFO eligibility queue, which holds each worker at most once plus the stop sentinels of the sequencer threads;
  - the farm status: ACTIVE, ACTIVE_FULL or TERMINATED;
  - the counters `jobsReceived` and `jobsCompleted`;
  - the lazy reclamation of idle VMs (`cleanup`), driven by `lastCleanupTime`, VM_TIMEOUT and SCHEDULER_CLEANUP_INTERVAL.
- **The pure helpers of `LinkedProcess`**, as functions in module `LinkedProcess`:
  - splitting an XMPP address into bare JID and resourcepart at the first `/`;
  - the bare class name;
  - the wire names of the status and error enumerations, and the reverse lookup of an error type.

## Modules

- `Wrappers` (wrappers.dfy): `Option`, `Outcome` (completes or throws) and `Result` (returns a value or throws).
- `LinkedProcess` (linked_process.dfy): the JID helpers, `GetBareClassName`, the status enums, `LopErrorType` with `GetErrorType`, and the properties relating them.
- `Workers` (workers.dfy): an abstract `Worker` record and the queue operations.
  - The source of `VMWorker` and `SimpleBlockingQueue` is not part of this model. A worker is therefore modelled as a job FIFO with a capacity, a last-active time, a status, its bindings, and a `handle` that stands for Java object identity.
  - The queue is a sequence of `QueueEntry` values. `OfferDistinct` appends a worker only when it is absent; `Without` removes workers.
- `SchedulerModel` (scheduler_model.dfy): the scheduler's state as a value, `SchedulerState`, and the effect of each operation on it.
  - The effects are `Spawned`, `Unregistered`, `Replaced`, `Scheduled`, `Swept` and `ShutDownTo`.
  - The invariant `Inv` says:
    - each worker is queued at most once;
    - every registered worker is valid and has its own handle;
    - while the farm runs and MAX_VM ≥ 1, the registry holds at most MAX_VM VMs, and the status is ACTIVE_FULL exactly when it holds MAX_VM;
    - once TERMINATED, no VM is registered.
  - The lemmas prove that every effect keeps `Inv` and that a cleanup pass reclaims exactly the idle, timed-out VMs.
- `Scheduler` (scheduler.dfy): the class `VMScheduler`.
  - Its fields are the source's fields. Its methods update them in place, with the loops of `cleanup`, `shutDown` and `putBackWorker`.
  - Each public operation states its new state through the `SchedulerModel` definitions, and keeps `Valid()`: `Inv` plus freshness of the next handle. The internal helpers (`Unregister`, `IdleTimedOutVms`, `TerminateAll`) state their effect only; their callers re-establish `Valid()`.

The constants come from a `Config` value: MAX_VM, VM_TIMEOUT, SCHEDULER_CLEANUP_INTERVAL, the number of sequencer threads, a worker's job-queue capacity, and the supported script species. The clock is the `now` parameter of the operations that run `cleanup`. The calls to the status event handler are recorded in the ghost trace `events`.

The scheduler uses the farm statuses ACTIVE, ACTIVE_FULL and TERMINATED, so `SchedulerModel.FarmStatus` has these three values. The `FarmStatus` of linkedprocess-core's `LinkedProcess.java` has INACTIVE in place of TERMINATED. That enumeration is modelled separately as `LinkedProcess.FarmStatus`, with its wire names.

## Model

| member | source | states |
|---|---|---|
| LinkedProcess.GenerateResource | linkedprocess-core/src/main/java/org/linkedprocess/LinkedProcess.java:147-149 | the result is the suffix after the first `/`; with no `/`, the whole JID |
| LinkedProcess.GenerateBareJid | linkedprocess-core/src/main/java/org/linkedprocess/LinkedProcess.java:151-153 | fails exactly when there is no `/`, as `substring(0, -1)` throws. Otherwise the bare part has no `/`, and bare + "/" + resource gives back the JID |
| LinkedProcess.IsBareJid | linkedprocess-core/src/main/java/org/linkedprocess/LinkedProcess.java:155-157 | true exactly when no character of the JID is `/` |
| LinkedProcess.BareJidHasNoSplit | linkedprocess-core/src/main/java/org/linkedprocess/LinkedProcess.java:147-157 | a bare JID is its own resource and has no bare part to extract |
| LinkedProcess.SplitJoin | linkedprocess-core/src/main/java/org/linkedprocess/LinkedProcess.java:147-157 | joining a slash-free bare part and any resource with `/`, then splitting, gives both parts back; the joined JID is not bare |
| LinkedProcess.GetBareClassName | linkedprocess-core/src/main/java/org/linkedprocess/LinkedProcess.java:139-145 | the result is a suffix with no `.`. It is the whole name when the name has no `.`; otherwise it is preceded by the last `.` |
| LinkedProcess.FarmStatusNamesDistinct | linkedprocess-core/src/main/java/org/linkedprocess/LinkedProcess.java:47-59 | no two farm statuses share a wire name, so a farm status can be read back from its name |
| LinkedProcess.VmStatusNamesDistinct | linkedprocess-core/src/main/java/org/linkedprocess/LinkedProcess.java:61-73 | no two VM statuses share a wire name |
| LinkedProcess.FindErrorType | linkedprocess-core/src/main/java/org/linkedprocess/LinkedProcess.java:130-135 | the linear search returns a candidate whose name matches, or nothing exactly when no candidate's name matches |
| LinkedProcess.GetErrorType | linkedprocess-core/src/main/java/org/linkedprocess/LinkedProcess.java:129-136 | a found error type has the requested wire name |
| LinkedProcess.AllErrorTypesListed | linkedprocess-core/src/main/java/org/linkedprocess/LinkedProcess.java:103-117 | every error type is in `values()` |
| LinkedProcess.ErrorTypeNamesDistinct | linkedprocess-core/src/main/java/org/linkedprocess/LinkedProcess.java:103-127 | no two error types share a wire name |
| LinkedProcess.ErrorTypeRoundTrip | linkedprocess-core/src/main/java/org/linkedprocess/LinkedProcess.java:103-136 | `getErrorType(t.toString()) == t` for every error type |
| LinkedProcess.ErrorTypeUnknown | linkedprocess-core/src/main/java/org/linkedprocess/LinkedProcess.java:129-136 | `getErrorType` returns null exactly for strings that are no error type's wire name |
| Workers.AddJob | src/main/java/org/linkedprocess/os/VMScheduler.java:122-124 | refuses a duplicate job id or a full worker, and says which. Otherwise the job is appended at the tail, nothing else changes, and the worker invariant is kept |
| Workers.AbortJob | src/main/java/org/linkedprocess/os/VMScheduler.java:151 | fails exactly when the job is not queued. Otherwise that job is cut out of the worker's FIFO at its first position, the jobs before and after it keep their order, nothing else changes, and the invariant is kept |
| Workers.RemoveFirstCuts | src/main/java/org/linkedprocess/os/VMScheduler.java:151 | when position `i` holds the first occurrence of a job id, removing that id gives `jobs[..i] + jobs[i+1..]` |
| Workers.RemoveFirstKeepsOrder | src/main/java/org/linkedprocess/os/VMScheduler.java:151 | the same for every position that holds the first occurrence |
| Workers.GetBindings | src/main/java/org/linkedprocess/os/VMScheduler.java:336 | the requested names the worker binds, with their values |
| Workers.SetBindings | src/main/java/org/linkedprocess/os/VMScheduler.java:354 | new bindings win, other bindings stay, and nothing else changes |
| Workers.OfferDistinct | src/main/java/org/linkedprocess/os/VMScheduler.java:436-447 | the entry is in the queue afterwards; the old queue is a prefix; at most one element is added, and only when the entry was absent |
| Workers.Without | src/main/java/org/linkedprocess/os/VMScheduler.java:225 | removes every occurrence of the given workers and keeps every other entry's count; the order of the entries that stay is `WithoutAppend` |
| Workers.WithoutAppend | src/main/java/org/linkedprocess/os/VMScheduler.java:225 | removal distributes over concatenation, so the entries that stay keep their relative FIFO order |
| Workers.WithoutOne | src/main/java/org/linkedprocess/os/VMScheduler.java:225 | a single entry stays exactly when it is not one of the removed workers; with `WithoutAppend` this fixes the result for every queue |
| Workers.OfferDistinctKeepsDistinct | src/main/java/org/linkedprocess/os/VMScheduler.java:439-445 | offering keeps each worker queued at most once, and the offered worker is then queued exactly once |
| Workers.OfferDistinctIdempotent | src/main/java/org/linkedprocess/os/VMScheduler.java:439-445 | a second offer of the same worker changes nothing |
| Workers.WithoutKeepsDistinct | src/main/java/org/linkedprocess/os/VMScheduler.java:225 | removing workers keeps the others queued at most once |
| Workers.WithoutNothing | src/main/java/org/linkedprocess/os/VMScheduler.java:225 | removing no worker leaves the queue as it was |
| Workers.WithoutTwice | src/main/java/org/linkedprocess/os/VMScheduler.java:378-384 | removing two sets of workers in turn equals removing their union |
| SchedulerModel.RemovalEventsContent | src/main/java/org/linkedprocess/os/VMScheduler.java:228-232 | terminating a VM emits one NOT_FOUND event for it, and ACTIVE exactly when the farm relaxes |
| SchedulerModel.NotFoundEventsContent | src/main/java/org/linkedprocess/os/VMScheduler.java:294-298 | the shutdown announcements are NOT_FOUND events for the listed VMs, in order, with no status change |
| SchedulerModel.FreshHandle | src/main/java/org/linkedprocess/os/VMScheduler.java:197-199 | a newly created worker is no registered worker, and the handles stay below the next one |
| SchedulerModel.SpawnedKeepsInv | src/main/java/org/linkedprocess/os/VMScheduler.java:197-204 | spawning into an ACTIVE farm keeps `Inv`, including the switch to ACTIVE_FULL at MAX_VM, and adds exactly the new key |
| SchedulerModel.SpawnedValid | src/main/java/org/linkedprocess/os/VMScheduler.java:197-204 | the same for a worker that takes the next handle: the farm is not terminated, and handles stay fresh |
| SchedulerModel.UnregisterKeepsInv | src/main/java/org/linkedprocess/os/VMScheduler.java:222-232 | unregistering keeps `Inv` and removes exactly that key. The worker leaves the queue, the other registrations are unchanged, and the status is not TERMINATED |
| SchedulerModel.ReplacedKeepsInv | src/main/java/org/linkedprocess/os/VMScheduler.java:147-151 | updating a registered worker in place keeps `Inv` |
| SchedulerModel.ScheduledKeepsInv | src/main/java/org/linkedprocess/os/VMScheduler.java:118-126 | scheduling keeps `Inv` and leaves the worker queued exactly once |
| SchedulerModel.SweptKeepsInv | src/main/java/org/linkedprocess/os/VMScheduler.java:364-388 | a cleanup pass keeps `Inv`. A VM leaves exactly when the pass is due and the VM cannot work and has been inactive for VM_TIMEOUT; every other VM stays unchanged |
| SchedulerModel.SweptSparesWorking | src/main/java/org/linkedprocess/os/VMScheduler.java:368-376 | a cleanup pass never reclaims a VM with queued jobs, nor changes its place count in the queue |
| SchedulerModel.RemovedOneMore | src/main/java/org/linkedprocess/os/VMScheduler.java:378-384 | unregistering one more target extends a partial sweep |
| SchedulerModel.UnregisterAllRemoves | src/main/java/org/linkedprocess/os/VMScheduler.java:378-384 | terminating distinct registered VMs one by one, in any order, removes exactly that set |
| SchedulerModel.CleanedSweeps | src/main/java/org/linkedprocess/os/VMScheduler.java:364-388 | a due pass that terminates exactly the scanned VMs, then records the time, is a sweep |
| SchedulerModel.CleanupSound | src/main/java/org/linkedprocess/os/VMScheduler.java:364-388 | due or not, `cleanup` is a sweep. It keeps `Inv` and fresh handles, and spares the VMs that can work |
| SchedulerModel.ShutDownStateIsShutDown | src/main/java/org/linkedprocess/os/VMScheduler.java:282-302 | after shutdown: an empty registry, one sentinel per sequencer, one NOT_FOUND per former VM, then TERMINATED; `Inv` holds |
| SchedulerModel.ShutDownKeepsInv | src/main/java/org/linkedprocess/os/VMScheduler.java:282-302 | any state that is the result of a shutdown satisfies `Inv` |
| Scheduler.VMScheduler.constructor | src/main/java/org/linkedprocess/os/VMScheduler.java:64-92 | an ACTIVE farm with no VM, an empty queue, zero counters, and one ACTIVE status event |
| Scheduler.VMScheduler.Unregister | src/main/java/org/linkedprocess/os/VMScheduler.java:222-232 | the new state is `Unregistered`: the key and the worker are gone, NOT_FOUND is emitted, and the status returns to ACTIVE when below MAX_VM |
| Scheduler.VMScheduler.Replace | src/main/java/org/linkedprocess/os/VMScheduler.java:352-354 | the registration now holds the updated worker, which keeps its identity; `Valid` is kept and nothing else changes |
| Scheduler.VMScheduler.IdleTimedOutVms | src/main/java/org/linkedprocess/os/VMScheduler.java:367-376 | lists, each once, exactly the registered VMs that cannot work and have been inactive for VM_TIMEOUT |
| Scheduler.VMScheduler.TerminateAll | src/main/java/org/linkedprocess/os/VMScheduler.java:378-384 | terminates the listed VMs in order, skipping any already gone |
| Scheduler.VMScheduler.Cleanup | src/main/java/org/linkedprocess/os/VMScheduler.java:364-388 | the new state is a sweep at `now`: unchanged when not due, otherwise the idle timed-out VMs are gone and the time is recorded. `Valid` is kept, and working VMs are spared |
| Scheduler.VMScheduler.ScheduleJob | src/main/java/org/linkedprocess/os/VMScheduler.java:110-129 | fails with IllegalState when terminated, then not-found, then already-exists or full. `jobsReceived` grows by one on every call that passes the terminated check. A failure leaves the scheduler state as it was; on success the job is queued, the worker is in the queue once, and cleanup runs |
| Scheduler.VMScheduler.QueueJob | src/main/java/org/linkedprocess/os/VMScheduler.java:118-128 | registers the updated worker and offers it to the queue (exactly once), then cleans up; the worker survives the cleanup |
| Scheduler.VMScheduler.AbortJob | src/main/java/org/linkedprocess/os/VMScheduler.java:141-154 | fails with IllegalState, VMWorkerNotFound or JobNotFound, in that order, changing nothing. Otherwise the job leaves the worker, then cleanup runs |
| Scheduler.VMScheduler.SpawnVirtualMachine | src/main/java/org/linkedprocess/os/VMScheduler.java:168-207 | the checks in the source's order: terminated, full, empty id, empty species, already registered, unsupported species. A failure changes nothing; success registers a fresh worker, switches to ACTIVE_FULL at MAX_VM, emits ACTIVE, and cleans up |
| Scheduler.VMScheduler.Register | src/main/java/org/linkedprocess/os/VMScheduler.java:197-206 | registering the fresh worker and cleaning up is a sweep of `Spawned` and keeps `Valid` |
| Scheduler.VMScheduler.TerminateVirtualMachine | src/main/java/org/linkedprocess/os/VMScheduler.java:216-235 | fails with IllegalState or VMWorkerNotFound, changing nothing. Otherwise the VM is unregistered and a cleanup pass follows; the VM is gone afterwards |
| Scheduler.VMScheduler.GetSchedulerStatus | src/main/java/org/linkedprocess/os/VMScheduler.java:240-242 | returns the status. While running, it is ACTIVE_FULL exactly when MAX_VM VMs are registered; when terminated, no VM is |
| Scheduler.VMScheduler.GetVirtualMachineStatus | src/main/java/org/linkedprocess/os/VMScheduler.java:248-253 | ACTIVE exactly for a registered VM, NOT_FOUND otherwise |
| Scheduler.VMScheduler.GetJobStatus | src/main/java/org/linkedprocess/os/VMScheduler.java:264-277 | VMWorkerNotFound for an unknown VM; IN_PROGRESS exactly when the job is queued on it; otherwise JobNotFound |
| Scheduler.VMScheduler.GetBindings | src/main/java/org/linkedprocess/os/VMScheduler.java:328-337 | IllegalState when terminated, VMWorkerNotFound for an unknown VM, otherwise the VM's requested bindings |
| Scheduler.VMScheduler.SetBindings | src/main/java/org/linkedprocess/os/VMScheduler.java:346-355 | IllegalState or VMWorkerNotFound, changing nothing. Otherwise the VM's bindings are merged and nothing else changes; no cleanup runs |
| Scheduler.VMScheduler.StopSentinels | src/main/java/org/linkedprocess/os/VMScheduler.java:285-292 | a queue of exactly `numberOfSequencers` sentinels |
| Scheduler.VMScheduler.AnnounceRemovals | src/main/java/org/linkedprocess/os/VMScheduler.java:294-298 | one NOT_FOUND event per registered VM, in iteration order, and nothing else |
| Scheduler.VMScheduler.ShutDown | src/main/java/org/linkedprocess/os/VMScheduler.java:282-302 | the new state satisfies `ShutDownTo` (see `ShutDownStateIsShutDown`) and `Valid` |
| Scheduler.VMScheduler.PutBackWorker | src/main/java/org/linkedprocess/os/VMScheduler.java:411-432 | finds the registration holding the worker itself, if any. A crashed worker's registration is terminated through the public path; a live worker's registration now holds the worker as its slice left it. A worker that is not idle is then in the queue exactly once; an idle one is not offered |
| Scheduler.VMScheduler.FindRegistration | src/main/java/org/linkedprocess/os/VMScheduler.java:415-417 | finds a JID whose worker is `w` itself, or reports that there is none |
| Scheduler.VMScheduler.GetWorkerByJID | src/main/java/org/linkedprocess/os/VMScheduler.java:449-457 | the registered worker, or VMWorkerNotFound exactly when the JID is not registered |
| Scheduler.VMScheduler.CountResult | src/main/java/org/linkedprocess/os/VMScheduler.java:495-500 | each delivered result adds one to `jobsCompleted` |

## Left out

- Scheduler.VMScheduler.TerminateAll: when `cleanup` terminates a VM, it unregisters the VM without running the nested cleanup that `terminateVirtualMachine` performs.
  - With one clock value, the nested passes select the same VMs, and the outer loop ignores VMs that are already gone. The net effect is therefore one pass.
  - With a real clock, the nested passes could read later times; that is not captured.
- The order of removals in `cleanup` and `shutDown` follows the registry's iteration order, which a `HashMap` does not fix.
  - The model scans a set in an arbitrary order.
  - The event-trace properties therefore hold for every order: one NOT_FOUND per VM and at most one return to ACTIVE.
- Scheduler.VMScheduler.PutBackWorker: the registry and the sequencer share one worker object. The model makes the slice's changes to a worker (jobs run, last-active time) visible to the registry when the worker is handed back, not while the slice runs. It assumes that a live worker handed back still satisfies the worker invariant, which `VMWorker` would maintain.
- Scheduler.VMScheduler.PutBackWorker: models the intended effect, which is terminating the unique registration of a crashed worker. It does not model these hazards:
  - the source continues iterating `workersByJID.keySet()` after a removal, which would raise a ConcurrentModificationException;
  - the method runs outside the scheduler's lock.
- Concurrency: the operations are `synchronized`, so each is modelled as one atomic step. The sequencer threads and `getWorker` (a blocking `take()`, with `System.exit` on interrupt) are not part of this model.
- The constructor's creation of the sequencer threads, the script engine manager, and the loading of properties.
  - The constants are the fields of `Config`.
  - Script engines are membership in `supportedSpecies`.
- `waitUntilFinished` is a busy wait with `Thread.sleep`, and `setStatusEventHandler` only swaps the handler; neither is modelled. The event handler's calls are the ghost trace `events`.
- `VMWorker` and `SimpleBlockingQueue` are not part of this model. In particular:
  - job execution and time slicing;
  - `w.terminate()` in `terminateVirtualMachine` and `shutDown`, and the job results it produces;
  - how a worker's last-active time changes.
- Workers.AddJob: the order of its two refusals (duplicate id before full queue) is assumed, as `VMWorker.addJob` is not shown.
- Scheduler.VMScheduler.CountResult: only `ResultCounter.handleResult` increments `jobsCompleted`. Results that a worker produces internally (aborted, terminated or executed jobs) reach it only through that handler, and the handler's monitor lock is not modelled.
- Null arguments: `null` JIDs and species are modelled as the empty string, which the source rejects in the same branch.
- `scheduleJob` counts a submission in `jobsReceived` before it looks the VM up. A submission refused with not-found, already-exists or full is therefore counted although its job never reaches a worker. The model keeps this behaviour (see `Scheduler.VMScheduler.ScheduleJob`).
- The JDOM XML helpers, `main`, `getLogger`, `getProperties` and the other enums of `LinkedProcess.java` (`VilleinStatus`, `RegistryStatus`), and all logging.
- Integer widths: the counters are `long` and the times are milliseconds in `long`. The model uses unbounded integers, so wrap-around is not modelled.
