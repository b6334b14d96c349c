/** What the scheduler needs to know about a VM worker and about the queue of
    workers eligible for a time slice.

    A worker is a value here: its identity (a Java object reference) is the
    `handle` the scheduler gives it at spawn time, and the queue holds handles,
    so a worker whose record changes is still the same queue entry. */
module Workers {
  import opened Wrappers

  // ---------------------------------------------------------------------------
  // Workers

  datatype WorkerStatus = Active | Terminated

  /** The value of one binding in a VM's environment. */
  datatype Value =
    | StringValue(s: string)
    | IntegerValue(i: int)
    | BooleanValue(b: bool)
    | UnknownValue(text: string)

  type Bindings = map<string, Value>

  /** One VM: the species of its script engine, the ids of its queued jobs in
      FIFO order (at most `capacity` of them), the time it was last active,
      its status and its variable bindings. */
  datatype Worker = Worker(
    handle: nat,
    species: string,
    jobs: seq<string>,
    capacity: nat,
    lastActive: int,
    status: WorkerStatus,
    bindings: Bindings)

  /** No job id is queued twice on a worker. */
  ghost predicate DistinctJobs(jobs: seq<string>)
  {
    forall id :: multiset(jobs)[id] <= 1
  }

  /** What holds of every worker the scheduler has registered. */
  ghost predicate WorkerInvariant(w: Worker)
  {
    w.status == WorkerStatus.Active && |w.jobs| <= w.capacity && DistinctJobs(w.jobs)
  }

  /** A worker can work while it has queued jobs. */
  predicate CanWork(w: Worker)
  {
    w.jobs != []
  }

  predicate JobExists(w: Worker, jobId: string)
  {
    jobId in w.jobs
  }

  datatype AddJobFailure = JobAlreadyQueued | QueueIsFull

  /** Queue a job at the tail of the worker's FIFO. A job id that is already
      queued is refused, and so is any job once the queue holds `capacity`
      jobs; a refused job leaves the worker as it was. */
  function AddJob(w: Worker, jobId: string): (r: Result<Worker, AddJobFailure>)
    ensures r.Failure? ==> (r.error == JobAlreadyQueued <==> JobExists(w, jobId))
    ensures r.Success? <==> !JobExists(w, jobId) && |w.jobs| < w.capacity
    ensures r.Success? ==>
              && JobExists(r.value, jobId) && CanWork(r.value)
              && |r.value.jobs| == |w.jobs| + 1
              && r.value.jobs[..|w.jobs|] == w.jobs
              && r.value.(jobs := w.jobs) == w
    ensures r.Success? && WorkerInvariant(w) ==> WorkerInvariant(r.value)
  {
    if jobId in w.jobs then Failure(JobAlreadyQueued)
    else if |w.jobs| >= w.capacity then Failure(QueueIsFull)
    else
      var jobs := w.jobs + [jobId];
      assert multiset(jobs) == multiset(w.jobs) + multiset{jobId};
      Success(w.(jobs := jobs))
  }

  /** `jobs` without the first occurrence of `id`, order otherwise kept. */
  function RemoveFirst(jobs: seq<string>, id: string): (r: seq<string>)
    ensures multiset(r) == multiset(jobs) - multiset{id}
    ensures |r| == if id in jobs then |jobs| - 1 else |jobs|
  {
    if jobs == [] then []
    else
      assert jobs == [jobs[0]] + jobs[1..];
      if jobs[0] == id then jobs[1..]
      else [jobs[0]] + RemoveFirst(jobs[1..], id)
  }

  /** Removing the first occurrence cuts exactly that position out of the
      FIFO: the jobs before and after it keep their order. */
  lemma {:induction false} RemoveFirstCuts(jobs: seq<string>, id: string, i: nat)
    requires i < |jobs| && jobs[i] == id && id !in jobs[..i]
    ensures RemoveFirst(jobs, id) == jobs[..i] + jobs[i + 1..]
  {
    if i > 0 {
      assert jobs[0] == jobs[..i][0];
      var tail := jobs[1..];
      assert tail[..i - 1] == jobs[1..i];
      RemoveFirstCuts(tail, id, i - 1);
      assert [jobs[0]] + tail[..i - 1] == jobs[..i];
      assert tail[i..] == jobs[i + 1..];
    }
  }

  /** The same for every position that holds the first occurrence. */
  lemma RemoveFirstKeepsOrder(jobs: seq<string>, id: string)
    ensures forall i :: 0 <= i < |jobs| && jobs[i] == id && id !in jobs[..i] ==>
              RemoveFirst(jobs, id) == jobs[..i] + jobs[i + 1..]
  {
    forall i | 0 <= i < |jobs| && jobs[i] == id && id !in jobs[..i]
      ensures RemoveFirst(jobs, id) == jobs[..i] + jobs[i + 1..]
    {
      RemoveFirstCuts(jobs, id, i);
    }
  }

  /** Cancel a queued job. `None` stands for JobNotFoundException. */
  function AbortJob(w: Worker, jobId: string): (r: Option<Worker>)
    ensures r.None? <==> !JobExists(w, jobId)
    ensures r.Some? ==> multiset(r.value.jobs) == multiset(w.jobs) - multiset{jobId}
    ensures r.Some? ==> forall i :: 0 <= i < |w.jobs| && w.jobs[i] == jobId && jobId !in w.jobs[..i] ==>
              r.value.jobs == w.jobs[..i] + w.jobs[i + 1..]
    ensures r.Some? ==> r.value.(jobs := w.jobs) == w
    ensures r.Some? && WorkerInvariant(w) ==> WorkerInvariant(r.value) && !JobExists(r.value, jobId)
  {
    if jobId !in w.jobs then None
    else
      assert DistinctJobs(w.jobs) ==> multiset(w.jobs)[jobId] == 1;
      RemoveFirstKeepsOrder(w.jobs, jobId);
      Some(w.(jobs := RemoveFirst(w.jobs, jobId)))
  }

  /** The bindings of `names` that the worker has. */
  function GetBindings(w: Worker, names: set<string>): (r: Bindings)
    ensures r.Keys == names * w.bindings.Keys
    ensures forall n :: n in r ==> r[n] == w.bindings[n]
  {
    map n | n in names && n in w.bindings :: w.bindings[n]
  }

  /** Merge `update` into the worker's bindings; on a name bound in both,
      the new value wins. */
  function SetBindings(w: Worker, update: Bindings): (r: Worker)
    ensures r.bindings.Keys == w.bindings.Keys + update.Keys
    ensures forall n :: n in update ==> r.bindings[n] == update[n]
    ensures forall n :: n in w.bindings && n !in update ==> r.bindings[n] == w.bindings[n]
    ensures r.(bindings := w.bindings) == w
  {
    w.(bindings := w.bindings + update)
  }

  // ---------------------------------------------------------------------------
  // The eligibility queue

  /** An element of the eligibility queue: a worker, or the sentinel that
      tells a sequencer thread to stop. */
  datatype QueueEntry = Queued(handle: nat) | Sentinel

  /** Each worker is in the queue at most once (sentinels may repeat). */
  ghost predicate DistinctWorkers(q: seq<QueueEntry>)
  {
    forall h: nat :: multiset(q)[Queued(h)] <= 1
  }

  /** `offerDistinct`: append `e` at the tail unless it is already queued. */
  function OfferDistinct(q: seq<QueueEntry>, e: QueueEntry): (r: seq<QueueEntry>)
    ensures e in r
    ensures q <= r && |r| <= |q| + 1
    ensures forall x :: x != e ==> multiset(r)[x] == multiset(q)[x]
    ensures multiset(r)[e] == if e in q then multiset(q)[e] else 1
  {
    if e in q then q else q + [e]
  }

  /** The queue without the workers whose handles are in `hs`, order kept.
      On a queue where each worker appears at most once this is the
      queue's `remove` applied to each of them. */
  function Without(q: seq<QueueEntry>, hs: set<nat>): (r: seq<QueueEntry>)
    ensures |r| <= |q|
    ensures forall x :: multiset(r)[x] == if x.Queued? && x.handle in hs then 0 else multiset(q)[x]
  {
    if q == [] then []
    else
      assert q == [q[0]] + q[1..];
      (if q[0].Queued? && q[0].handle in hs then [] else [q[0]]) + Without(q[1..], hs)
  }

  /** Offering keeps each worker in the queue at most once, and the offered
      worker is then there exactly once. */
  lemma OfferDistinctKeepsDistinct(q: seq<QueueEntry>, h: nat)
    requires DistinctWorkers(q)
    ensures DistinctWorkers(OfferDistinct(q, Queued(h)))
    ensures multiset(OfferDistinct(q, Queued(h)))[Queued(h)] == 1
  {
    var r := OfferDistinct(q, Queued(h));
    forall h': nat ensures multiset(r)[Queued(h')] <= 1 {
      if h' != h {
        assert multiset(r)[Queued(h')] == multiset(q)[Queued(h')];
      }
    }
  }

  /** A second offer of the same worker changes nothing: a VM that submits
      jobs rapidly still holds only one place in the queue. */
  lemma OfferDistinctIdempotent(q: seq<QueueEntry>, e: QueueEntry)
    ensures OfferDistinct(OfferDistinct(q, e), e) == OfferDistinct(q, e)
  {
  }

  /** Removing some workers keeps the others at most once. */
  lemma WithoutKeepsDistinct(q: seq<QueueEntry>, hs: set<nat>)
    requires DistinctWorkers(q)
    ensures DistinctWorkers(Without(q, hs))
  {
    var r := Without(q, hs);
    forall h: nat ensures multiset(r)[Queued(h)] <= 1 {
      assert multiset(r)[Queued(h)] <= multiset(q)[Queued(h)];
    }
  }

  /** Removing no worker changes nothing. */
  lemma {:induction false} WithoutNothing(q: seq<QueueEntry>)
    ensures Without(q, {}) == q
  {
    if q != [] {
      WithoutNothing(q[1..]);
      assert q == [q[0]] + q[1..];
    }
  }

  /** Removal is a filter: it distributes over concatenation, so the
      entries that stay keep their relative order in the FIFO. */
  lemma {:induction false} WithoutAppend(a: seq<QueueEntry>, b: seq<QueueEntry>, hs: set<nat>)
    ensures Without(a + b, hs) == Without(a, hs) + Without(b, hs)
  {
    if a == [] {
      assert a + b == b;
    } else {
      var ab := a + b;
      assert ab[0] == a[0] && ab[1..] == a[1..] + b;
      var head := if a[0].Queued? && a[0].handle in hs then [] else [a[0]];
      var ra, rb := Without(a[1..], hs), Without(b, hs);
      WithoutAppend(a[1..], b, hs);
      calc {
        Without(ab, hs);
        head + Without(a[1..] + b, hs);
        head + (ra + rb);
        { ConcatAssoc(head, ra, rb); }
        (head + ra) + rb;
        Without(a, hs) + rb;
      }
    }
  }

  lemma ConcatAssoc<T>(x: seq<T>, y: seq<T>, z: seq<T>)
    ensures x + (y + z) == (x + y) + z
  {
  }

  /** An entry stays exactly when it is not one of the removed workers. */
  lemma WithoutOne(e: QueueEntry, hs: set<nat>)
    ensures Without([e], hs) == if e.Queued? && e.handle in hs then [] else [e]
  {
    assert [e][1..] == [];
  }

  /** Removing two sets of workers one after the other is removing their
      union. */
  lemma {:induction false} WithoutTwice(q: seq<QueueEntry>, a: set<nat>, b: set<nat>)
    ensures Without(Without(q, a), b) == Without(q, a + b)
  {
    if q != [] {
      var rest := Without(q[1..], a);
      WithoutTwice(q[1..], a, b);
      if q[0].Queued? && q[0].handle in a {
        assert Without(q, a) == rest;
      } else {
        var once := Without(q, a);
        assert once == [q[0]] + rest;
        assert once[0] == q[0] && once[1..] == rest;
      }
    }
  }
}
