/** The pointers that lookups return: how long they stay good, and what becomes of them otherwise. */
module JobPointers {
  import opened Wrappers
  import opened JobQueue
  import opened JobTickets

  /** The consumer holds a pointer to the job it was handed, which is there, under the consumer's ticket. */
  ghost predicate HoldsOwn(s: State, ticket: int) {
    ticket in s.consumers &&
    var c := s.consumers[ticket];
    c.found == Some(c.own) && c.own in s.jobs && s.jobs[c.own].submitted && s.jobs[c.own].ticket == ticket
  }

  /** The job the consumer was handed is not completed, and no other consumer holds a pointer to it. */
  ghost predicate Alone(s: State, ticket: int)
    requires ticket in s.consumers
  {
    var own := s.consumers[ticket].own;
    (own in s.jobs ==> !s.jobs[own].completed) &&
    forall u :: u in s.consumers && u != ticket ==> s.consumers[u].found != Some(own)
  }

  /** Until the consumer completes, whatever else happens, it holds a pointer to that same job. */
  ghost predicate StaysOwn(s: State, ticket: int)
    requires ticket in s.consumers
  {
    forall steps :: CanRun(s, steps) && Complete(ticket) !in steps ==>
      HoldsOwn(After(s, steps), ticket) && After(s, steps).consumers[ticket] == s.consumers[ticket]
  }

  // ---------------------------------------------------------------- pointers that stay good

  lemma StepKeepsAlone(s: State, step: Step, ticket: int)
    requires Inv(s) && Enabled(s, step) && step != Complete(ticket)
    requires HoldsOwn(s, ticket) && Alone(s, ticket)
    ensures var s' := Apply(s, step);
            HoldsOwn(s', ticket) && Alone(s', ticket) && s'.consumers[ticket] == s.consumers[ticket]
  {
    match step
    case GetJob(q) =>
      FirstReadySplits(s.jobs, q, Vec(s, q));
    case Lookup(u) =>
      FindLast(s.jobs, Vec(s, s.consumers[u].queue), u);
    case _ =>
  }

  /**
   * In every run in which the consumer has not yet completed, its pointer stays good: the completion is
   * possible, and it hits the consumer's own job, whose submitter is still waiting for it.
   */
  lemma {:induction false} AloneStaysGood(s: State, steps: seq<Step>, ticket: int)
    requires Inv(s) && HoldsOwn(s, ticket) && Alone(s, ticket)
    requires CanRun(s, steps) && Complete(ticket) !in steps
    ensures var s' := After(s, steps);
            HoldsOwn(s', ticket) && Alone(s', ticket) && s'.consumers[ticket] == s.consumers[ticket] &&
            Enabled(s', Complete(ticket)) && s'.jobs[s.consumers[ticket].own].phase == Waiting
    decreases |steps|
  {
    if steps == [] {
      assert JobOk(s.jobs[s.consumers[ticket].own], s.lastTicket);
    } else {
      assert steps[0] in steps && forall x :: x in steps[1..] ==> x in steps;
      StepKeepsInv(s, steps[0]);
      StepKeepsAlone(s, steps[0], ticket);
      AloneStaysGood(Apply(s, steps[0]), steps[1..], ticket);
    }
  }

  // ---------------------------------------------------------------- pointers that do not

  /** The steps after which a submitter has returned and deleted its job, once the job is completed. */
  lemma RemoveAndDelete(s: State, steps: seq<Step>, id: JobId) returns (all: seq<Step>)
    requires CanRun(s, steps) && var s1 := After(s, steps); id in s1.jobs && s1.jobs[id].completed
    requires After(s, steps).jobs[id].phase != Fresh
    ensures CanRun(s, all) && id !in After(s, all).jobs
    ensures After(s, all).consumers == After(s, steps).consumers
    ensures forall t :: Complete(t) in all <==> Complete(t) in steps
  {
    all := steps;
    if After(s, steps).jobs[id].phase == Waiting {
      RunOneMore(s, all, Erase(id));
      all := all + [Erase(id)];
    }
    RunOneMore(s, all, Delete(id));
    all := all + [Delete(id)];
  }

  /** If another consumer can complete the job, or one has, then it can be gone before this one completes. */
  lemma OwnCanVanish(s: State, ticket: int) returns (steps: seq<Step>)
    requires Inv(s) && HoldsOwn(s, ticket) && !Alone(s, ticket)
    ensures CanRun(s, steps) && Complete(ticket) !in steps && !HoldsOwn(After(s, steps), ticket)
    ensures s.consumers[ticket].own !in After(s, steps).jobs
  {
    var own := s.consumers[ticket].own;
    steps := [];
    if !s.jobs[own].completed {
      var u :| u in s.consumers && u != ticket && s.consumers[u].found == Some(own);
      RunOneMore(s, steps, Complete(u));
      steps := steps + [Complete(u)];
    }
    steps := RemoveAndDelete(s, steps, own);
  }

  /**
   * A pointer to the own job stays one, in every continuation without the completion, if and only if the
   * job is not completed and no other consumer holds a pointer to it.
   */
  lemma PointerExact(s: State, ticket: int)
    requires Inv(s) && HoldsOwn(s, ticket)
    ensures StaysOwn(s, ticket) <==> Alone(s, ticket)
  {
    if Alone(s, ticket) {
      forall steps | CanRun(s, steps) && Complete(ticket) !in steps
        ensures HoldsOwn(After(s, steps), ticket) && After(s, steps).consumers[ticket] == s.consumers[ticket]
      {
        AloneStaysGood(s, steps, ticket);
      }
    } else {
      var steps := OwnCanVanish(s, ticket);
    }
  }

  /**
   * When a completion is sure to hit the own job, told at the lookup before it: the job is recognizable
   * by its ticket, it is not completed, and no other consumer holds a pointer to it.
   */
  lemma CompletionExact(s: State, ticket: int)
    requires Inv(s) && Enabled(s, Lookup(ticket))
    ensures StaysOwn(Apply(s, Lookup(ticket)), ticket) <==> Recognizable(s, ticket) && Alone(s, ticket)
  {
    var c, s' := s.consumers[ticket], Apply(s, Lookup(ticket));
    LookupExact(s, ticket);
    FindLast(s.jobs, Vec(s, c.queue), ticket);
    StepKeepsInv(s, Lookup(ticket));
    assert s'.jobs == s.jobs && s'.consumers.Keys == s.consumers.Keys && s'.consumers[ticket].own == c.own;
    assert forall u :: u in s.consumers && u != ticket ==> s'.consumers[u] == s.consumers[u];
    if HoldsOwn(s', ticket) {
      PointerExact(s', ticket);
    } else {
      assert CanRun(s', []) && After(s', []) == s';
    }
  }

  /** With clean tickets every pointer a consumer holds is to its own job, and nobody else holds one to it. */
  lemma CleanPointersStay(s: State, ticket: int)
    requires Inv(s) && Clean(s) && ticket in s.consumers && s.consumers[ticket].found != None
    ensures StaysOwn(s, ticket)
  {
    forall u | u in s.consumers ensures CleanConsumer(s, u) {}
    PointerExact(s, ticket);
  }

  // ---------------------------------------------------------------- two runs

  /**
   * Jobs 0 and 1 are handed out under tickets 1 and 2. The lookup for ticket 1 came when job 1 still had a
   * stale 1 in its ticket, so the first consumer holds a pointer to job 1.
   */
  const BOTH_HANDED_OUT: State := State(
    map["q" := [0, 1]],
    map[0 := Job("q", true, true, false, 1, Waiting), 1 := Job("q", true, true, false, 2, Waiting)],
    2, map[1 := Consumer(0, "q", Some(1)), 2 := Consumer(1, "q", None)])

  lemma BothStates() returns (s4: State, s5: State, s6: State)
    ensures Enabled(HANDED_OUT, New(1, "q", 1)) && s4 == Apply(HANDED_OUT, New(1, "q", 1))
    ensures Enabled(s4, Enqueue(1)) && s5 == Apply(s4, Enqueue(1))
    ensures Enabled(s5, Lookup(1)) && s6 == Apply(s5, Lookup(1))
    ensures Enabled(s6, GetJob("q")) && Apply(s6, GetJob("q")) == BOTH_HANDED_OUT
  {
    s4 := Apply(HANDED_OUT, New(1, "q", 1));
    s5 := Apply(s4, Enqueue(1));
    assert Vec(s5, "q") == [0, 1] && Found(s5, 1) == Some(1);
    s6 := Apply(s5, Lookup(1));
    assert Vec(s6, "q") == [0, 1] && [0, 1][1..] == [1];
    assert FirstReady(s6.jobs, [0, 1]) == 1;
  }

  lemma BothHandedOut() returns (steps: seq<Step>)
    ensures steps == [New(0, "q", 0), Enqueue(0), GetJob("q"), New(1, "q", 1), Enqueue(1), Lookup(1), GetJob("q")]
    ensures CanRun(START, steps) && After(START, steps) == BOTH_HANDED_OUT
  {
    hide Apply, After, CanRun, Enabled;
    steps := HandedOutOnce();
    var s4, s5, s6 := BothStates();
    RunOneMore(START, steps, New(1, "q", 1));
    steps := steps + [New(1, "q", 1)];
    RunOneMore(START, steps, Enqueue(1));
    steps := steps + [Enqueue(1)];
    RunOneMore(START, steps, Lookup(1));
    steps := steps + [Lookup(1)];
    RunOneMore(START, steps, GetJob("q"));
    steps := steps + [GetJob("q")];
  }

  /** The consumer's lookup would find its own job, for the reason that LookupExact gives. */
  ghost predicate FindsOwn(s: State, ticket: int) {
    ticket in s.consumers && Recognizable(s, ticket) && Finds(s, ticket, s.consumers[ticket].own)
  }

  /** The consumer holds a pointer to a job that was deleted. */
  ghost predicate Dangles(s: State, ticket: int) {
    ticket in s.consumers && s.consumers[ticket].found != None && s.consumers[ticket].found.value !in s.jobs
  }

  /** The job is completed before its submitter has put it into a queue. */
  ghost predicate CompletedFresh(s: State, id: JobId) {
    id in s.jobs && s.jobs[id].completed && !s.jobs[id].submitted && s.jobs[id].phase == Fresh
  }

  lemma DanglingStates() returns (s8: State, s9: State, s10: State, s11: State, s12: State)
    ensures FindsOwn(BOTH_HANDED_OUT, 2)
    ensures Enabled(BOTH_HANDED_OUT, Lookup(2)) && s8 == Apply(BOTH_HANDED_OUT, Lookup(2))
    ensures Enabled(s8, Complete(1)) && s9 == Apply(s8, Complete(1))
    ensures Enabled(s9, Erase(1)) && s10 == Apply(s9, Erase(1))
    ensures Enabled(s10, Delete(1)) && s11 == Apply(s10, Delete(1)) && Dangles(s11, 2)
    ensures Enabled(s11, New(1, "q", 7)) && s12 == Apply(s11, New(1, "q", 7))
    ensures Enabled(s12, Complete(2)) && CompletedFresh(Apply(s12, Complete(2)), 1)
  {
    assert Vec(BOTH_HANDED_OUT, "q") == [0, 1] && Found(BOTH_HANDED_OUT, 2) == Some(1);
    s8 := Apply(BOTH_HANDED_OUT, Lookup(2));
    s9 := Apply(s8, Complete(1));
    s10 := Apply(s9, Erase(1));
    s11 := Apply(s10, Delete(1));
    s12 := Apply(s11, New(1, "q", 7));
  }

  /**
   * The second consumer's lookup is exact. Before it completes, the first one completes job 1 as well, whose
   * submitter returns and deletes it: the second consumer is left with a pointer to a deleted job.
   */
  lemma CompletionMayDangle() returns (steps: seq<Step>)
    ensures steps == [New(0, "q", 0), Enqueue(0), GetJob("q"), New(1, "q", 1), Enqueue(1), Lookup(1), GetJob("q"),
                      Lookup(2), Complete(1), Erase(1), Delete(1)]
    ensures CanRun(START, steps[..7]) && FindsOwn(After(START, steps[..7]), 2)
    ensures CanRun(START, steps) && Dangles(After(START, steps), 2)
  {
    hide Apply, After, CanRun, Enabled, FindsOwn, Dangles, CompletedFresh;
    var first := BothHandedOut();
    var s8, s9, s10, s11, s12 := DanglingStates();
    steps := first;
    RunOneMore(START, steps, Lookup(2));
    steps := steps + [Lookup(2)];
    RunOneMore(START, steps, Complete(1));
    steps := steps + [Complete(1)];
    RunOneMore(START, steps, Erase(1));
    steps := steps + [Erase(1)];
    RunOneMore(START, steps, Delete(1));
    steps := steps + [Delete(1)];
    assert steps[..7] == first;
  }

  /** And if the memory is used for a new job, the second consumer completes that one before it is submitted. */
  lemma CompletionMayHitNewJob() returns (steps: seq<Step>)
    ensures steps == [New(0, "q", 0), Enqueue(0), GetJob("q"), New(1, "q", 1), Enqueue(1), Lookup(1), GetJob("q"),
                      Lookup(2), Complete(1), Erase(1), Delete(1), New(1, "q", 7), Complete(2)]
    ensures CanRun(START, steps) && CompletedFresh(After(START, steps), 1)
  {
    hide Apply, After, CanRun, Enabled, FindsOwn, Dangles, CompletedFresh;
    steps := BothHandedOut();
    var s8, s9, s10, s11, s12 := DanglingStates();
    RunOneMore(START, steps, Lookup(2));
    steps := steps + [Lookup(2)];
    RunOneMore(START, steps, Complete(1));
    steps := steps + [Complete(1)];
    RunOneMore(START, steps, Erase(1));
    steps := steps + [Erase(1)];
    RunOneMore(START, steps, Delete(1));
    steps := steps + [Delete(1)];
    RunOneMore(START, steps, New(1, "q", 7));
    steps := steps + [New(1, "q", 7)];
    RunOneMore(START, steps, Complete(2));
    steps := steps + [Complete(2)];
  }
}
