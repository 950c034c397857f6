/** Removal and lookup go by ticket: when they are exact, and what happens when they are not. */
module JobTickets {
  import opened Wrappers
  import opened JobQueue

  // ---------------------------------------------------------------- removal

  /** v without the one entry id. */
  function Without(v: seq<JobId>, id: JobId): seq<JobId> {
    if v == [] then [] else if v[0] == id then v[1..] else [v[0]] + Without(v[1..], id)
  }

  /**
   * The erase loop removes exactly its own job if and only if no other entry of the queue carries its
   * ticket. When the own job was handed out, only waiting entries can: their tickets are uninitialized.
   */
  lemma RemovalExact(s: State, id: JobId)
    requires Inv(s) && id in s.jobs
    ensures var v, t := Vec(s, s.jobs[id].queue), s.jobs[id].ticket;
            (EraseTicket(s.jobs, v, t) == Without(v, id) <==>
             forall i :: 0 <= i < |v| && v[i] != id ==> s.jobs[v[i]].ticket != t) &&
            (s.jobs[id].submitted ==>
               (EraseTicket(s.jobs, v, t) == Without(v, id) <==>
                forall i :: 0 <= i < |v| && !s.jobs[v[i]].submitted ==> s.jobs[v[i]].ticket != t))
  {
    var v := Vec(s, s.jobs[id].queue);
    EraseIsWithout(s.jobs, s.jobs[id].queue, v, id);
    forall i | 0 <= i < |v| && v[i] != id && s.jobs[v[i]].submitted && s.jobs[id].submitted
      ensures s.jobs[v[i]].ticket != s.jobs[id].ticket {}
  }

  lemma {:induction false} EraseIsWithout(jobs: map<JobId, Job>, q: string, v: seq<JobId>, id: JobId)
    requires Shape(jobs, q, v) && id in jobs
    ensures EraseTicket(jobs, v, jobs[id].ticket) == Without(v, id) <==>
            forall i :: 0 <= i < |v| && v[i] != id ==> jobs[v[i]].ticket != jobs[id].ticket
  {
    if v == [] {
    } else {
      var t, rest := jobs[id].ticket, EraseTicket(jobs, v[1..], jobs[id].ticket);
      EraseTicketKeeps(jobs, q, v, t);
      forall i | 1 <= i < |v| ensures v[i] != v[0] { assert Ordered(jobs, v[0], v[i]); }
      ShapeTail(jobs, q, v);
      hide Shape;
      if v[0] == id {
        assert EraseTicket(jobs, v, t) == rest;
        EraseNothing(jobs, v[1..], t);
      } else {
        EraseIsWithout(jobs, q, v[1..], id);
        if jobs[v[0]].ticket == t {
          assert v[0] in Without(v, id);
        } else {
          assert ([v[0]] + rest)[1..] == rest && ([v[0]] + Without(v[1..], id))[1..] == Without(v[1..], id);
          assert EraseTicket(jobs, v, t) == Without(v, id) <==> rest == Without(v[1..], id);
        }
      }
    }
  }

  lemma ShapeTail(jobs: map<JobId, Job>, q: string, v: seq<JobId>)
    requires v != [] && Shape(jobs, q, v)
    ensures Shape(jobs, q, v[1..])
  {}

  lemma {:induction false} EraseNothing(jobs: map<JobId, Job>, v: seq<JobId>, ticket: int)
    requires forall i :: 0 <= i < |v| ==> v[i] in jobs
    ensures |EraseTicket(jobs, v, ticket)| <= |v|
    ensures EraseTicket(jobs, v, ticket) == v <==> forall i :: 0 <= i < |v| ==> jobs[v[i]].ticket != ticket
  {
    if v == [] {
    } else {
      EraseNothing(jobs, v[1..], ticket);
      var rest := EraseTicket(jobs, v[1..], ticket);
      assert ([v[0]] + rest)[1..] == rest && v == [v[0]] + v[1..];
    }
  }

  // ---------------------------------------------------------------- lookup

  ghost predicate Finds(s: State, ticket: int, id: JobId) {
    ticket in s.consumers && Found(s, ticket) == Some(id)
  }

  /** The job a consumer was handed is still in its queue, under its ticket. */
  ghost predicate OwnPresent(s: State, ticket: int)
    requires ticket in s.consumers
  {
    var c := s.consumers[ticket];
    c.own in Vec(s, c.queue) && c.own in s.jobs && s.jobs[c.own].submitted && s.jobs[c.own].ticket == ticket
  }

  /** The job a consumer was handed is still in its queue, and no waiting entry there carries its ticket. */
  ghost predicate Recognizable(s: State, ticket: int)
    requires ticket in s.consumers
  {
    var v := Vec(s, s.consumers[ticket].queue);
    OwnPresent(s, ticket) &&
    forall i :: 0 <= i < |v| && v[i] in s.jobs && !s.jobs[v[i]].submitted ==> s.jobs[v[i]].ticket != ticket
  }

  /**
   * A lookup finds the job the consumer was handed if and only if that job is recognizable by its ticket.
   * What the pointer is worth when the completion comes to use it is another matter: see JobPointers.
   */
  lemma LookupExact(s: State, ticket: int)
    requires Inv(s) && ticket in s.consumers
    ensures var c := s.consumers[ticket];
            Finds(s, ticket, c.own) && c.own in s.jobs && s.jobs[c.own].submitted <==> Recognizable(s, ticket)
  {
    var c := s.consumers[ticket];
    var v := Vec(s, c.queue);
    WaitingBehind(s.jobs, c.queue, v);
    FindLast(s.jobs, v, ticket);
  }

  lemma {:induction false} FindLast(jobs: map<JobId, Job>, v: seq<JobId>, ticket: int)
    requires forall i :: 0 <= i < |v| ==> v[i] in jobs
    ensures var r := LastWithTicket(jobs, v, ticket);
            match r
            case None => forall i :: 0 <= i < |v| ==> jobs[v[i]].ticket != ticket
            case Some(id) => exists k :: 0 <= k < |v| && v[k] == id && jobs[id].ticket == ticket &&
                                         forall i :: k < i < |v| ==> jobs[v[i]].ticket != ticket
  {
    if v == [] || jobs[v[|v| - 1]].ticket == ticket {
    } else {
      var front := v[..|v| - 1];
      FindLast(jobs, front, ticket);
      assert forall i :: 0 <= i < |front| ==> front[i] == v[i];
    }
  }

  // ---------------------------------------------------------------- jobs that get lost

  /**
   * The submitter of the job waits, the job is not completed, it is in no queue, and no consumer holds a
   * pointer to it. It may or may not have been handed out.
   */
  ghost predicate Lost(s: State, id: JobId) {
    id in s.jobs && s.jobs[id].phase == Waiting && !s.jobs[id].completed && id !in Vec(s, s.jobs[id].queue) &&
    forall t :: t in s.consumers ==> s.consumers[t].found != Some(id)
  }

  lemma StepKeepsLost(s: State, step: Step, id: JobId)
    requires Inv(s) && Enabled(s, step) && Lost(s, id)
    ensures Lost(Apply(s, step), id)
  {
    match step
    case GetJob(q) =>
      FirstReadySplits(s.jobs, q, Vec(s, q));
    case Lookup(t) =>
      FindLast(s.jobs, Vec(s, s.consumers[t].queue), t);
    case Erase(other) =>
      EraseTicketKeeps(s.jobs, s.jobs[other].queue, Vec(s, s.jobs[other].queue), s.jobs[other].ticket);
    case _ =>
  }

  /** A lost job is never completed, whatever happens, so its submitter waits for ever. */
  lemma {:induction false} LostForEver(s: State, steps: seq<Step>, id: JobId)
    requires Inv(s) && CanRun(s, steps) && Lost(s, id)
    ensures Lost(After(s, steps), id)
    decreases |steps|
  {
    if steps == [] {
    } else {
      StepKeepsInv(s, steps[0]);
      StepKeepsLost(s, steps[0], id);
      LostForEver(Apply(s, steps[0]), steps[1..], id);
    }
  }

  lemma {:induction false} RunOneMore(s: State, steps: seq<Step>, step: Step)
    requires CanRun(s, steps) && Enabled(After(s, steps), step)
    ensures CanRun(s, steps + [step]) && After(s, steps + [step]) == Apply(After(s, steps), step)
    decreases |steps|
  {
    var more := steps + [step];
    if steps == [] {
      assert more[1..] == [];
    } else {
      assert more[1..] == steps[1..] + [step];
      RunOneMore(Apply(s, steps[0]), steps[1..], step);
    }
  }

  /** Job 0 has been put into queue "q" and handed out under ticket 1. */
  const HANDED_OUT: State := State(
    map["q" := [0]], map[0 := Job("q", true, true, false, 1, Waiting)], 1, map[1 := Consumer(0, "q", None)])

  lemma HandedOutOnce() returns (steps: seq<Step>)
    ensures steps == [New(0, "q", 0), Enqueue(0), GetJob("q")]
    ensures CanRun(START, steps) && After(START, steps) == HANDED_OUT
  {
    var s1 := Apply(START, New(0, "q", 0));
    var s2 := Apply(s1, Enqueue(0));
    assert Vec(s2, "q") == [0];
    steps := [];
    RunOneMore(START, steps, New(0, "q", 0));
    steps := steps + [New(0, "q", 0)];
    RunOneMore(START, steps, Enqueue(0));
    steps := steps + [Enqueue(0)];
    RunOneMore(START, steps, GetJob("q"));
    steps := steps + [GetJob("q")];
    assert After(START, steps) == Apply(s2, GetJob("q"));
  }

  ghost predicate LostWaiting(s: State, id: JobId) {
    Lost(s, id) && !s.jobs[id].submitted
  }

  ghost predicate LostServed(s: State, id: JobId) {
    Lost(s, id) && s.jobs[id].submitted
  }

  /** The submitter has returned although its job was never handed out. */
  ghost predicate ReturnedUnserved(s: State, id: JobId) {
    id in s.jobs && s.jobs[id].phase == Returned && !s.jobs[id].submitted
  }

  lemma TwoErased(jobs: map<JobId, Job>)
    requires 0 in jobs && 1 in jobs && jobs[0].ticket == jobs[1].ticket == 1
    ensures EraseTicket(jobs, [0, 1], 1) == []
  {
    assert [0, 1][1..] == [1] && EraseTicket(jobs, [1], 1) == [];
  }

  lemma LosingStates() returns (s4: State, s5: State, s6: State, s7: State)
    ensures Finds(HANDED_OUT, 1, 0)
    ensures Enabled(HANDED_OUT, Lookup(1)) && s4 == Apply(HANDED_OUT, Lookup(1))
    ensures Enabled(s4, Complete(1)) && s5 == Apply(s4, Complete(1))
    ensures Enabled(s5, New(1, "q", 1)) && s6 == Apply(s5, New(1, "q", 1))
    ensures Enabled(s6, Enqueue(1)) && s7 == Apply(s6, Enqueue(1))
    ensures Enabled(s7, Erase(0)) && LostWaiting(Apply(s7, Erase(0)), 1)
  {
    assert Found(HANDED_OUT, 1) == Some(0);
    s4 := Apply(HANDED_OUT, Lookup(1));
    s5 := Apply(s4, Complete(1));
    s6 := Apply(s5, New(1, "q", 1));
    s7 := Apply(s6, Enqueue(1));
    assert Vec(s7, "q") == [0, 1];
    TwoErased(s7.jobs);
  }

  /**
   * The consumer of job 0 finds and completes job 0. Then job 1 arrives with a stale 1 in its ticket, and
   * the removal of job 0 takes it along: job 1 is lost while it waits.
   */
  lemma StaleTicketLosesJob() returns (steps: seq<Step>)
    ensures steps == [New(0, "q", 0), Enqueue(0), GetJob("q"), Lookup(1), Complete(1),
                      New(1, "q", 1), Enqueue(1), Erase(0)]
    ensures CanRun(START, steps[..3]) && Finds(After(START, steps[..3]), 1, 0)
    ensures CanRun(START, steps) && LostWaiting(After(START, steps), 1)
  {
    hide Apply, After, CanRun, Enabled, LostWaiting, Finds;
    var first := HandedOutOnce();
    var s4, s5, s6, s7 := LosingStates();
    steps := first;
    RunOneMore(START, steps, Lookup(1));
    steps := steps + [Lookup(1)];
    RunOneMore(START, steps, Complete(1));
    steps := steps + [Complete(1)];
    RunOneMore(START, steps, New(1, "q", 1));
    steps := steps + [New(1, "q", 1)];
    RunOneMore(START, steps, Enqueue(1));
    steps := steps + [Enqueue(1)];
    RunOneMore(START, steps, Erase(0));
    steps := steps + [Erase(0)];
    assert steps[..3] == first;
  }

  lemma TakingStates() returns (s4: State, s5: State, s6: State, s7: State)
    ensures Enabled(HANDED_OUT, New(1, "q", 1)) && s4 == Apply(HANDED_OUT, New(1, "q", 1))
    ensures Enabled(s4, Enqueue(1)) && s5 == Apply(s4, Enqueue(1)) && Finds(s5, 1, 1)
    ensures Enabled(s5, Lookup(1)) && s6 == Apply(s5, Lookup(1))
    ensures Enabled(s6, Complete(1)) && s7 == Apply(s6, Complete(1))
    ensures Enabled(s7, Erase(1))
    ensures ReturnedUnserved(Apply(s7, Erase(1)), 1) && LostServed(Apply(s7, Erase(1)), 0)
  {
    s4 := Apply(HANDED_OUT, New(1, "q", 1));
    s5 := Apply(s4, Enqueue(1));
    assert Vec(s5, "q") == [0, 1] && Found(s5, 1) == Some(1);
    s6 := Apply(s5, Lookup(1));
    s7 := Apply(s6, Complete(1));
    TwoErased(s7.jobs);
  }

  /**
   * Job 1 arrives with a stale 1 in its ticket before the consumer of job 0 completes. The lookup for
   * ticket 1 finds job 1: its submitter returns although the job was never handed out, and removes job 0
   * as well, which was handed out and is lost.
   */
  lemma StaleTicketTakesCompletion() returns (steps: seq<Step>)
    ensures steps == [New(0, "q", 0), Enqueue(0), GetJob("q"), New(1, "q", 1), Enqueue(1),
                      Lookup(1), Complete(1), Erase(1)]
    ensures CanRun(START, steps[..5]) && Finds(After(START, steps[..5]), 1, 1)
    ensures CanRun(START, steps)
    ensures ReturnedUnserved(After(START, steps), 1) && LostServed(After(START, steps), 0)
  {
    hide Apply, After, CanRun, Enabled, ReturnedUnserved, LostServed, Finds;
    steps := HandedOutOnce();
    var s4, s5, s6, s7 := TakingStates();
    RunOneMore(START, steps, New(1, "q", 1));
    steps := steps + [New(1, "q", 1)];
    RunOneMore(START, steps, Enqueue(1));
    steps := steps + [Enqueue(1)];
    var five := steps;
    RunOneMore(START, steps, Lookup(1));
    steps := steps + [Lookup(1)];
    RunOneMore(START, steps, Complete(1));
    steps := steps + [Complete(1)];
    RunOneMore(START, steps, Erase(1));
    steps := steps + [Erase(1)];
    assert steps[..5] == five;
  }

  // ---------------------------------------------------------------- runs with clean tickets

  /** A job whose uninitialized ticket, while it lasts, does not look like an issued one (those are positive). */
  ghost predicate CleanJob(s: State, id: JobId)
    requires id in s.jobs
  {
    var job := s.jobs[id];
    (!job.submitted ==> job.ticket <= 0) && (job.completed ==> job.submitted) &&
    (job.phase == Waiting ==> id in Vec(s, job.queue))
  }

  /** The job a consumer was handed awaits completion under its ticket, and a lookup has found no other. */
  ghost predicate CleanConsumer(s: State, ticket: int)
    requires ticket in s.consumers
  {
    var c := s.consumers[ticket];
    c.own in s.jobs && s.jobs[c.own].ticket == ticket && s.jobs[c.own].submitted && !s.jobs[c.own].completed &&
    s.jobs[c.own].queue == c.queue && (c.found == None || c.found == Some(c.own))
  }

  ghost predicate Clean(s: State) {
    (forall id :: id in s.jobs ==> CleanJob(s, id)) && (forall t :: t in s.consumers ==> CleanConsumer(s, t))
  }

  ghost predicate CleanStep(step: Step) {
    step.New? ==> step.stale <= 0
  }

  ghost predicate CleanSteps(steps: seq<Step>) {
    forall i :: 0 <= i < |steps| ==> CleanStep(steps[i])
  }

  /** With clean tickets a consumer that looks its job up finds it. */
  lemma CleanLookup(s: State, ticket: int)
    requires Inv(s) && Clean(s) && ticket in s.consumers
    ensures Found(s, ticket) == Some(s.consumers[ticket].own)
  {
    assert CleanConsumer(s, ticket);
    assert CleanJob(s, s.consumers[ticket].own);
    var v := Vec(s, s.consumers[ticket].queue);
    forall i | 0 <= i < |v| && !s.jobs[v[i]].submitted ensures s.jobs[v[i]].ticket != ticket {
      assert CleanJob(s, v[i]);
    }
    LookupExact(s, ticket);
  }

  /** With clean tickets the removal of a completed job takes nothing else. */
  lemma CleanRemoval(s: State, id: JobId)
    requires Inv(s) && Clean(s) && Enabled(s, Erase(id))
    ensures EraseTicket(s.jobs, Vec(s, s.jobs[id].queue), s.jobs[id].ticket) == Without(Vec(s, s.jobs[id].queue), id)
    ensures forall a :: a in s.jobs && a != id ==> s.jobs[a].ticket != s.jobs[id].ticket
  {
    assert CleanJob(s, id);
    forall a | a in s.jobs && a != id ensures s.jobs[a].ticket != s.jobs[id].ticket { assert CleanJob(s, a); }
    RemovalExact(s, id);
  }

  lemma NewKeepsClean(s: State, id: JobId, q: string, stale: int)
    requires Inv(s) && Clean(s) && Enabled(s, New(id, q, stale)) && stale <= 0
    ensures Clean(Apply(s, New(id, q, stale)))
  {
    var s' := Apply(s, New(id, q, stale));
    forall a | a in s'.jobs ensures CleanJob(s', a) { if a != id { assert CleanJob(s, a); } }
    forall t | t in s'.consumers ensures CleanConsumer(s', t) { assert CleanConsumer(s, t); }
  }

  lemma EnqueueKeepsClean(s: State, id: JobId)
    requires Inv(s) && Clean(s) && Enabled(s, Enqueue(id))
    ensures Clean(Apply(s, Enqueue(id)))
  {
    var s', q := Apply(s, Enqueue(id)), s.jobs[id].queue;
    assert Vec(s', q) == Vec(s, q) + [id];
    forall a | a in s'.jobs ensures CleanJob(s', a) { assert CleanJob(s, a); }
    forall t | t in s'.consumers ensures CleanConsumer(s', t) { assert CleanConsumer(s, t); }
  }

  lemma GetJobKeepsClean(s: State, q: string)
    requires Inv(s) && Clean(s)
    ensures Clean(Apply(s, GetJob(q)))
  {
    var s', v, k := Apply(s, GetJob(q)), Vec(s, q), FirstReady(s.jobs, Vec(s, q));
    forall a | a in s'.jobs ensures CleanJob(s', a) { assert CleanJob(s, a); }
    forall t | t in s'.consumers ensures CleanConsumer(s', t) {
      if t in s.consumers { assert CleanConsumer(s, t); } else { assert CleanJob(s, v[k]); }
    }
  }

  lemma LookupKeepsClean(s: State, ticket: int)
    requires Inv(s) && Clean(s) && Enabled(s, Lookup(ticket))
    ensures Clean(Apply(s, Lookup(ticket)))
  {
    CleanLookup(s, ticket);
    var s' := Apply(s, Lookup(ticket));
    forall a | a in s'.jobs ensures CleanJob(s', a) { assert CleanJob(s, a); }
    forall t | t in s'.consumers ensures CleanConsumer(s', t) { assert CleanConsumer(s, t); }
  }

  lemma CompleteKeepsClean(s: State, ticket: int)
    requires Inv(s) && Clean(s) && Enabled(s, Complete(ticket))
    ensures Clean(Apply(s, Complete(ticket)))
  {
    var s' := Apply(s, Complete(ticket));
    assert CleanConsumer(s, ticket);
    forall a | a in s'.jobs ensures CleanJob(s', a) { assert CleanJob(s, a); }
    forall t | t in s'.consumers ensures CleanConsumer(s', t) { assert CleanConsumer(s, t); }
  }

  lemma EraseKeepsClean(s: State, id: JobId)
    requires Inv(s) && Clean(s) && Enabled(s, Erase(id))
    ensures Clean(Apply(s, Erase(id)))
  {
    var s', q := Apply(s, Erase(id)), s.jobs[id].queue;
    CleanRemoval(s, id);
    EraseTicketKeeps(s.jobs, q, Vec(s, q), s.jobs[id].ticket);
    forall a | a in s'.jobs ensures CleanJob(s', a) { assert CleanJob(s, a); }
    forall t | t in s'.consumers ensures CleanConsumer(s', t) { assert CleanConsumer(s, t); }
  }

  lemma DeleteKeepsClean(s: State, id: JobId)
    requires Inv(s) && Clean(s) && Enabled(s, Delete(id))
    ensures Clean(Apply(s, Delete(id)))
  {
    var s' := Apply(s, Delete(id));
    forall a | a in s'.jobs ensures CleanJob(s', a) { assert CleanJob(s, a); }
    forall t | t in s'.consumers ensures CleanConsumer(s', t) { assert CleanConsumer(s, t); }
  }

  lemma StepKeepsClean(s: State, step: Step)
    requires Inv(s) && Clean(s) && Enabled(s, step) && CleanStep(step)
    ensures Clean(Apply(s, step))
  {
    hide Inv, Clean, Apply;
    match step
    case New(id, q, stale) => NewKeepsClean(s, id, q, stale);
    case Enqueue(id) => EnqueueKeepsClean(s, id);
    case GetJob(q) => GetJobKeepsClean(s, q);
    case Lookup(t) => LookupKeepsClean(s, t);
    case Complete(t) => CompleteKeepsClean(s, t);
    case Erase(id) => EraseKeepsClean(s, id);
    case Delete(id) => DeleteKeepsClean(s, id);
  }

  lemma {:induction false} RunKeepsClean(s: State, steps: seq<Step>)
    requires Inv(s) && Clean(s) && CanRun(s, steps) && CleanSteps(steps)
    ensures Inv(After(s, steps)) && Clean(After(s, steps))
    decreases |steps|
  {
    hide Inv, Clean, Apply;
    if steps == [] {
    } else {
      StepKeepsInv(s, steps[0]);
      StepKeepsClean(s, steps[0]);
      RunKeepsClean(Apply(s, steps[0]), steps[1..]);
    }
  }

  /** The consumer's lookup finds its own job; after it, the completion is possible and hits that job. */
  ghost predicate ServesOwn(s: State, ticket: int)
    requires ticket in s.consumers
  {
    var c := s.consumers[ticket];
    Found(s, ticket) == Some(c.own) && (c.found != None ==> c.found.value == c.own && Enabled(s, Complete(ticket)))
  }

  /** The removal takes exactly the own job. */
  ghost predicate RemovesOwn(s: State, id: JobId)
    requires id in s.jobs
  {
    var v := Vec(s, s.jobs[id].queue);
    EraseTicket(s.jobs, v, s.jobs[id].ticket) == Without(v, id)
  }

  /**
   * Over every run with clean tickets: each consumer finds its own job whenever it looks, and completes its
   * own job, which still exists; each removal takes exactly the own job; no waiting job is missing.
   */
  lemma CleanRunsAreExact(steps: seq<Step>)
    requires CanRun(START, steps) && CleanSteps(steps)
    ensures var s := After(START, steps);
            (forall t :: t in s.consumers ==> ServesOwn(s, t)) &&
            (forall id :: Enabled(s, Erase(id)) ==> RemovesOwn(s, id)) &&
            (forall id :: id in s.jobs && s.jobs[id].phase == Waiting ==> id in Vec(s, s.jobs[id].queue))
  {
    RunKeepsClean(START, steps);
    var s := After(START, steps);
    forall t | t in s.consumers ensures ServesOwn(s, t) {
      CleanLookup(s, t);
      assert CleanConsumer(s, t);
    }
    forall id | Enabled(s, Erase(id)) ensures RemovesOwn(s, id) {
      CleanRemoval(s, id);
    }
    forall id | id in s.jobs && s.jobs[id].phase == Waiting ensures id in Vec(s, s.jobs[id].queue) {
      assert CleanJob(s, id);
    }
  }
}
