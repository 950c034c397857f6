/**
 * The job queue shared by submitting and consuming threads. Each locked region is one atomic step;
 * an interleaving of any number of threads is a sequence of steps.
 */
module JobQueue {
  import opened Wrappers

  /** A pointer to a job. Pointers may be used again after the job is deleted. */
  type JobId = nat

  /** How far the submitting thread has come: before the first locked region of submit, in it, after it. */
  datatype Phase = Fresh | Waiting | Returned

  /** The ticket of a job that was never handed out is whatever the memory held: it has no initializer. */
  datatype Job = Job(queue: string, ready: bool, submitted: bool, completed: bool, ticket: int, phase: Phase)

  /**
   * What the consumer of a ticket holds: the queue name and, between its two locked regions, the pointer
   * that its lookup returned. `own` is the job it was handed; no step reads it.
   */
  datatype Consumer = Consumer(own: JobId, queue: string, found: Option<JobId>)

  datatype State = State(
    queues: map<string, seq<JobId>>, jobs: map<JobId, Job>, lastTicket: int, consumers: map<int, Consumer>)

  datatype Step =
    | New(id: JobId, queue: string, stale: int)
    | Enqueue(id: JobId)
    | GetJob(queue: string)
    | Lookup(ticket: int)
    | Complete(ticket: int)
    | Erase(id: JobId)
    | Delete(id: JobId)

  function Vec(s: State, q: string): seq<JobId> {
    if q in s.queues then s.queues[q] else []
  }

  /** Position of the first job that is ready and not yet handed out; the length if there is none. */
  function FirstReady(jobs: map<JobId, Job>, v: seq<JobId>): (k: nat)
    ensures k <= |v|
    ensures k < |v| ==> v[k] in jobs && jobs[v[k]].ready && !jobs[v[k]].submitted
  {
    if v == [] || (v[0] in jobs && jobs[v[0]].ready && !jobs[v[0]].submitted) then 0
    else 1 + FirstReady(jobs, v[1..])
  }

  /** The vector without the entries whose job carries the ticket. */
  function EraseTicket(jobs: map<JobId, Job>, v: seq<JobId>, ticket: int): seq<JobId> {
    if v == [] then []
    else (if v[0] in jobs && jobs[v[0]].ticket == ticket then [] else [v[0]]) + EraseTicket(jobs, v[1..], ticket)
  }

  /** Last entry with the ticket, as find_job scans on after a hit. */
  function LastWithTicket(jobs: map<JobId, Job>, v: seq<JobId>, ticket: int): Option<JobId> {
    if v == [] then None
    else if v[|v| - 1] in jobs && jobs[v[|v| - 1]].ticket == ticket then Some(v[|v| - 1])
    else LastWithTicket(jobs, v[..|v| - 1], ticket)
  }

  // ---------------------------------------------------------------- steps

  /** What find_job returns for the queue name and ticket a consumer holds. */
  function Found(s: State, ticket: int): Option<JobId>
    requires ticket in s.consumers
  {
    LastWithTicket(s.jobs, Vec(s, s.consumers[ticket].queue), ticket)
  }

  /**
   * A lookup without a hit, and a completion through a pointer to a deleted job, are undefined and no steps.
   * Runs do reach states in which a consumer is about to do the latter: see JobPointers.
   */
  predicate Enabled(s: State, step: Step) {
    match step
    case New(id, _, _) => id !in s.jobs
    case Enqueue(id) => id in s.jobs && s.jobs[id].phase == Fresh
    case GetJob(_) => true
    case Lookup(t) =>
      t in s.consumers && s.consumers[t].found == None && Found(s, t) != None
    case Complete(t) =>
      t in s.consumers && s.consumers[t].found != None && s.consumers[t].found.value in s.jobs
    case Erase(id) => id in s.jobs && s.jobs[id].phase == Waiting && s.jobs[id].completed
    case Delete(id) => id in s.jobs && s.jobs[id].phase == Returned
  }

  function Apply(s: State, step: Step): State
    requires Enabled(s, step)
  {
    match step
    case New(id, q, stale) => s.(jobs := s.jobs[id := Job(q, false, false, false, stale, Fresh)])
    case Enqueue(id) =>
      var job := s.jobs[id];
      s.(queues := s.queues[job.queue := Vec(s, job.queue) + [id]],
         jobs := s.jobs[id := job.(ready := true, phase := Waiting)])
    case GetJob(q) =>
      var v := Vec(s, q);
      var k := FirstReady(s.jobs, v);
      if k == |v| then s.(queues := s.queues[q := v])
      else State(s.queues[q := v],
                 s.jobs[v[k] := s.jobs[v[k]].(submitted := true, ticket := s.lastTicket + 1)],
                 s.lastTicket + 1,
                 s.consumers[s.lastTicket + 1 := Consumer(v[k], q, None)])
    case Lookup(t) =>
      var c := s.consumers[t];
      s.(queues := s.queues[c.queue := Vec(s, c.queue)], consumers := s.consumers[t := c.(found := Found(s, t))])
    case Complete(t) =>
      var id := s.consumers[t].found.value;
      s.(jobs := s.jobs[id := s.jobs[id].(completed := true)], consumers := s.consumers - {t})
    case Erase(id) =>
      var job := s.jobs[id];
      s.(queues := s.queues[job.queue := EraseTicket(s.jobs, Vec(s, job.queue), job.ticket)],
         jobs := s.jobs[id := job.(phase := Returned)])
    case Delete(id) => s.(jobs := s.jobs - {id})
  }

  /** The job a get_job step hands out. */
  function HandedOut(s: State, q: string): Option<JobId> {
    var v := Vec(s, q);
    var k := FirstReady(s.jobs, v);
    if k == |v| then None else Some(v[k])
  }

  ghost predicate CanRun(s: State, steps: seq<Step>)
    decreases |steps|
  {
    steps == [] || (Enabled(s, steps[0]) && CanRun(Apply(s, steps[0]), steps[1..]))
  }

  ghost function After(s: State, steps: seq<Step>): State
    requires CanRun(s, steps)
    decreases |steps|
  {
    if steps == [] then s else After(Apply(s, steps[0]), steps[1..])
  }

  // ---------------------------------------------------------------- what every interleaving keeps

  /** An entry of queue q points to a live job of that queue whose submitter is still waiting. */
  ghost predicate LiveEntry(jobs: map<JobId, Job>, q: string, id: JobId) {
    id in jobs && jobs[id].queue == q && jobs[id].ready && jobs[id].phase == Waiting
  }

  /** Entry a may stand before entry b: handed-out jobs come first, in ticket order. */
  ghost predicate Ordered(jobs: map<JobId, Job>, a: JobId, b: JobId)
    requires a in jobs && b in jobs
  {
    a != b && (jobs[b].submitted ==> jobs[a].submitted && jobs[a].ticket < jobs[b].ticket)
  }

  /** Distinct live jobs, handed-out ones with increasing tickets in front of the waiting ones. */
  ghost predicate Shape(jobs: map<JobId, Job>, q: string, v: seq<JobId>) {
    (forall i :: 0 <= i < |v| ==> LiveEntry(jobs, q, v[i])) &&
    (forall i, j :: 0 <= i < j < |v| ==> Ordered(jobs, v[i], v[j]))
  }

  ghost predicate JobOk(job: Job, lastTicket: int) {
    (job.submitted ==> 1 <= job.ticket <= lastTicket && job.phase != Fresh) &&
    (job.ready <==> job.phase != Fresh) &&
    (job.phase == Returned ==> job.completed)
  }

  ghost predicate Inv(s: State) {
    (forall q :: q in s.queues ==> Shape(s.jobs, q, s.queues[q])) &&
    (forall id :: id in s.jobs ==> JobOk(s.jobs[id], s.lastTicket)) &&
    (forall a, b :: a in s.jobs && b in s.jobs && a != b && s.jobs[a].submitted && s.jobs[b].submitted ==>
       s.jobs[a].ticket != s.jobs[b].ticket) &&
    (forall t :: t in s.consumers ==> 1 <= t <= s.lastTicket) && s.lastTicket >= 0
  }

  /** A property of entries survives the erasing of others. */
  lemma {:induction false} EraseTicketKeeps(jobs: map<JobId, Job>, q: string, v: seq<JobId>, ticket: int)
    requires Shape(jobs, q, v)
    ensures Shape(jobs, q, EraseTicket(jobs, v, ticket))
    ensures forall id :: id in EraseTicket(jobs, v, ticket) <==> id in v && jobs[id].ticket != ticket
  {
    if v == [] {
    } else {
      EraseTicketKeeps(jobs, q, v[1..], ticket);
      assert v == [v[0]] + v[1..];
      var rest := EraseTicket(jobs, v[1..], ticket);
      forall j | 0 <= j < |rest| ensures Ordered(jobs, v[0], rest[j]) {
        assert rest[j] in v[1..];
      }
    }
  }

  /** Changes that leave the jobs of a vector alone leave its shape alone. */
  lemma ShapeFrame(jobs: map<JobId, Job>, jobs': map<JobId, Job>, q: string, v: seq<JobId>)
    requires Shape(jobs, q, v)
    requires forall i :: 0 <= i < |v| ==> v[i] in jobs' && jobs'[v[i]] == jobs[v[i]]
    ensures Shape(jobs', q, v)
  {}

  /** Entries behind a waiting entry are waiting. */
  lemma WaitingBehind(jobs: map<JobId, Job>, q: string, v: seq<JobId>)
    requires Shape(jobs, q, v)
    ensures forall i, j :: 0 <= i < j < |v| && !jobs[v[i]].submitted ==> !jobs[v[j]].submitted
  {
    forall i, j | 0 <= i < j < |v| && !jobs[v[i]].submitted ensures !jobs[v[j]].submitted {
      assert Ordered(jobs, v[i], v[j]);
    }
  }

  lemma {:induction false} FirstReadySplits(jobs: map<JobId, Job>, q: string, v: seq<JobId>)
    requires Shape(jobs, q, v)
    ensures var k := FirstReady(jobs, v);
            (forall i :: 0 <= i < k ==> jobs[v[i]].submitted) && (forall i :: k <= i < |v| ==> !jobs[v[i]].submitted)
  {
    if v == [] {
    } else {
      if jobs[v[0]].submitted { FirstReadySplits(jobs, q, v[1..]); }
      forall i | 0 < i < |v| ensures jobs[v[i]].submitted ==> jobs[v[0]].submitted { assert Ordered(jobs, v[0], v[i]); }
    }
  }

  lemma NewKeepsInv(s: State, id: JobId, q: string, stale: int)
    requires Inv(s) && Enabled(s, New(id, q, stale))
    ensures Inv(Apply(s, New(id, q, stale)))
  {}

  lemma EnqueueKeepsInv(s: State, id: JobId)
    requires Inv(s) && Enabled(s, Enqueue(id))
    ensures Inv(Apply(s, Enqueue(id)))
  {
    var s' := Apply(s, Enqueue(id));
    var q := s.jobs[id].queue;
    ShapeFrame(s.jobs, s'.jobs, q, Vec(s, q));
    var v := s'.queues[q];
    forall i, j | 0 <= i < j < |v| ensures Ordered(s'.jobs, v[i], v[j]) {
      if j < |v| - 1 { assert Ordered(s'.jobs, Vec(s, q)[i], Vec(s, q)[j]); }
    }
    forall r | r in s'.queues && r != q ensures Shape(s'.jobs, r, s'.queues[r]) {
      ShapeFrame(s.jobs, s'.jobs, r, s.queues[r]);
    }
  }

  lemma HandOutKeepsShape(s: State, q: string)
    requires Inv(s)
    ensures Shape(Apply(s, GetJob(q)).jobs, q, Vec(s, q))
  {
    var s' := Apply(s, GetJob(q));
    var v, k := Vec(s, q), FirstReady(s.jobs, Vec(s, q));
    FirstReadySplits(s.jobs, q, v);
    forall i, j | 0 <= i < j < |v| ensures Ordered(s'.jobs, v[i], v[j]) {
      assert Ordered(s.jobs, v[i], v[j]);
      if i < k < |v| { assert Ordered(s.jobs, v[i], v[k]); }
      if k < j < |v| { assert Ordered(s.jobs, v[k], v[j]); }
    }
  }

  lemma GetJobKeepsInv(s: State, q: string)
    requires Inv(s)
    ensures Inv(Apply(s, GetJob(q)))
  {
    var s' := Apply(s, GetJob(q));
    HandOutKeepsShape(s, q);
    forall r | r in s'.queues && r != q ensures Shape(s'.jobs, r, s'.queues[r]) {
      ShapeFrame(s.jobs, s'.jobs, r, s.queues[r]);
    }
  }

  lemma LookupKeepsInv(s: State, ticket: int)
    requires Inv(s) && Enabled(s, Lookup(ticket))
    ensures Inv(Apply(s, Lookup(ticket)))
  {}

  lemma CompleteKeepsInv(s: State, ticket: int)
    requires Inv(s) && Enabled(s, Complete(ticket))
    ensures Inv(Apply(s, Complete(ticket)))
  {
    var s' := Apply(s, Complete(ticket));
    forall r | r in s'.queues ensures Shape(s'.jobs, r, s'.queues[r]) {
      forall i, j | 0 <= i < j < |s.queues[r]| ensures Ordered(s'.jobs, s.queues[r][i], s.queues[r][j]) {
        assert Ordered(s.jobs, s.queues[r][i], s.queues[r][j]);
      }
    }
  }

  lemma EraseKeepsInv(s: State, id: JobId)
    requires Inv(s) && Enabled(s, Erase(id))
    ensures Inv(Apply(s, Erase(id)))
  {
    var s' := Apply(s, Erase(id));
    var q := s.jobs[id].queue;
    EraseTicketKeeps(s.jobs, q, Vec(s, q), s.jobs[id].ticket);
    forall r | r in s'.queues ensures Shape(s'.jobs, r, s'.queues[r]) {
      if r != q { EraseTicketKeeps(s.jobs, r, s.queues[r], 0); }
      forall i | 0 <= i < |s'.queues[r]| ensures s'.queues[r][i] != id {
        assert s'.queues[r][i] in s'.queues[r];
      }
      ShapeFrame(s.jobs, s'.jobs, r, s'.queues[r]);
    }
  }

  lemma DeleteKeepsInv(s: State, id: JobId)
    requires Inv(s) && Enabled(s, Delete(id))
    ensures Inv(Apply(s, Delete(id)))
  {}

  lemma StepKeepsInv(s: State, step: Step)
    requires Inv(s) && Enabled(s, step)
    ensures Inv(Apply(s, step))
  {
    match step
    case New(id, q, stale) => NewKeepsInv(s, id, q, stale);
    case Enqueue(id) => EnqueueKeepsInv(s, id);
    case GetJob(q) => GetJobKeepsInv(s, q);
    case Lookup(t) => LookupKeepsInv(s, t);
    case Complete(t) => CompleteKeepsInv(s, t);
    case Erase(id) => EraseKeepsInv(s, id);
    case Delete(id) => DeleteKeepsInv(s, id);
  }

  /** Every interleaving keeps the shape of every queue: in particular no entry points to a deleted job. */
  lemma {:induction false} RunKeepsInv(s: State, steps: seq<Step>)
    requires Inv(s) && CanRun(s, steps)
    ensures Inv(After(s, steps))
    decreases |steps|
  {
    if steps == [] {
    } else {
      StepKeepsInv(s, steps[0]);
      RunKeepsInv(Apply(s, steps[0]), steps[1..]);
    }
  }

  const START: State := State(map[], map[], 0, map[])

  /** Over any run from the start: entries point to live, distinct jobs, and a deleted job is in no queue. */
  lemma NoDanglingEntry(steps: seq<Step>, q: string)
    requires CanRun(START, steps)
    ensures var s := After(START, steps);
            (forall i :: 0 <= i < |Vec(s, q)| ==> Vec(s, q)[i] in s.jobs && s.jobs[Vec(s, q)[i]].phase == Waiting) &&
            (forall i, j :: 0 <= i < j < |Vec(s, q)| ==> Vec(s, q)[i] != Vec(s, q)[j])
  {
    RunKeepsInv(START, steps);
    var s := After(START, steps);
    forall i, j | 0 <= i < j < |Vec(s, q)| ensures Vec(s, q)[i] != Vec(s, q)[j] {
      assert Ordered(s.jobs, Vec(s, q)[i], Vec(s, q)[j]);
    }
  }
}
