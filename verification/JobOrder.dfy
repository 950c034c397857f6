/** The order in which jobs are served. */
module JobOrder {
  import opened Wrappers
  import opened JobQueue
  import opened JobTickets

  // ---------------------------------------------------------------- subsequences

  /** a results from b by leaving out elements. */
  predicate Sub(a: seq<JobId>, b: seq<JobId>) {
    a == [] || (b != [] && if a[0] == b[0] then Sub(a[1..], b[1..]) else Sub(a, b[1..]))
  }

  lemma {:induction false} SubTail(a: seq<JobId>, b: seq<JobId>)
    requires a != [] && Sub(a, b)
    ensures Sub(a[1..], b)
    decreases |b|, 1
  {
    if a[0] == b[0] {
    } else {
      SubTail(a, b[1..]);
    }
    SubMore(a[1..], b);
  }

  /** What is a subsequence of the rest is one of the whole. */
  lemma {:induction false} SubMore(a: seq<JobId>, b: seq<JobId>)
    requires b != [] && Sub(a, b[1..])
    ensures Sub(a, b)
    decreases |b|, 0
  {
    if a != [] && a[0] == b[0] { SubTail(a, b[1..]); }
  }

  lemma {:induction false} SubTrans(a: seq<JobId>, b: seq<JobId>, c: seq<JobId>)
    requires Sub(a, b) && Sub(b, c)
    ensures Sub(a, c)
    decreases |c|
  {
    if a == [] {
    } else {
      if b[0] != c[0] {
        SubTrans(a, b, c[1..]);
        SubMore(a, c);
      } else if a[0] == b[0] {
        SubTrans(a[1..], b[1..], c[1..]);
      } else {
        SubTrans(a, b[1..], c[1..]);
        SubMore(a, c);
      }
    }
  }

  lemma {:induction false} SubPrepend(x: seq<JobId>, a: seq<JobId>, b: seq<JobId>)
    requires Sub(a, b)
    ensures Sub(x + a, x + b)
  {
    if x == [] {
      assert x + a == a && x + b == b;
    } else {
      SubPrepend(x[1..], a, b);
      assert (x + a)[1..] == x[1..] + a && (x + b)[1..] == x[1..] + b;
    }
  }

  lemma {:induction false} SubAppend(a: seq<JobId>, b: seq<JobId>, x: seq<JobId>)
    requires Sub(a, b)
    ensures Sub(a + x, b + x)
    decreases |b|
  {
    if b == [] {
      assert a + x == x && b + x == x;
      SubSame(x);
    } else {
      assert (b + x)[1..] == b[1..] + x;
      if a != [] && a[0] == b[0] {
        assert (a + x)[1..] == a[1..] + x;
        SubAppend(a[1..], b[1..], x);
      } else {
        SubAppend(a, b[1..], x);
        SubMore(a + x, b + x);
      }
    }
  }

  lemma {:induction false} SubSame(x: seq<JobId>)
    ensures Sub(x, x)
  {
    if x == [] {
    } else {
      SubSame(x[1..]);
    }
  }

  /** A subsequence is shorter, or it is the sequence. */
  lemma {:induction false} SubLength(a: seq<JobId>, b: seq<JobId>)
    requires Sub(a, b)
    ensures |a| <= |b| && (|a| == |b| <==> a == b)
    decreases |b|
  {
    if a == [] {
    } else {
      if a[0] == b[0] {
        SubLength(a[1..], b[1..]);
        assert a == [a[0]] + a[1..] && b == [b[0]] + b[1..];
      } else {
        SubLength(a, b[1..]);
      }
    }
  }

  // ---------------------------------------------------------------- lines

  /** The jobs of a vector that were not handed out yet, in order. */
  function Unserved(jobs: map<JobId, Job>, v: seq<JobId>): seq<JobId> {
    if v == [] then []
    else (if v[0] in jobs && !jobs[v[0]].submitted then [v[0]] else []) + Unserved(jobs, v[1..])
  }

  /** The line in front of queue q: its unserved jobs. */
  ghost function Line(s: State, q: string): seq<JobId> {
    Unserved(s.jobs, Vec(s, q))
  }

  ghost function ServedNow(s: State, step: Step, q: string): seq<JobId> {
    if step == GetJob(q) && HandedOut(s, q).Some? then [HandedOut(s, q).value] else []
  }

  ghost function SubmittedNow(s: State, step: Step, q: string): seq<JobId>
    requires Enabled(s, step)
  {
    if step.Enqueue? && s.jobs[step.id].queue == q then [step.id] else []
  }

  /** Jobs that a run hands out from queue q, in order. */
  ghost function Served(s: State, steps: seq<Step>, q: string): seq<JobId>
    requires CanRun(s, steps)
    decreases |steps|
  {
    if steps == [] then []
    else ServedNow(s, steps[0], q) + Served(Apply(s, steps[0]), steps[1..], q)
  }

  /** Jobs that a run puts into queue q, in order. */
  ghost function Submitted(s: State, steps: seq<Step>, q: string): seq<JobId>
    requires CanRun(s, steps)
    decreases |steps|
  {
    if steps == [] then []
    else SubmittedNow(s, steps[0], q) + Submitted(Apply(s, steps[0]), steps[1..], q)
  }

  /** A removal whose ticket an unserved job of queue q carries: that job is taken out of the line. */
  ghost predicate TakesUnserved(s: State, step: Step, q: string)
    requires Enabled(s, step)
  {
    step.Erase? && s.jobs[step.id].queue == q &&
    exists i :: 0 <= i < |Vec(s, q)| && Vec(s, q)[i] in s.jobs &&
                !s.jobs[Vec(s, q)[i]].submitted && s.jobs[Vec(s, q)[i]].ticket == s.jobs[step.id].ticket
  }

  /** No removal of the run takes a job out of the line in front of queue q. */
  ghost predicate KeepsLine(s: State, steps: seq<Step>, q: string)
    requires CanRun(s, steps)
    decreases |steps|
  {
    steps == [] || (!TakesUnserved(s, steps[0], q) && KeepsLine(Apply(s, steps[0]), steps[1..], q))
  }

  lemma {:induction false} UnservedFrame(jobs: map<JobId, Job>, jobs': map<JobId, Job>, v: seq<JobId>)
    requires forall i :: 0 <= i < |v| ==> v[i] in jobs && v[i] in jobs' && jobs[v[i]].submitted == jobs'[v[i]].submitted
    ensures Unserved(jobs, v) == Unserved(jobs', v)
  {
    if v == [] {
    } else {
      UnservedFrame(jobs, jobs', v[1..]);
    }
  }

  lemma {:induction false} UnservedAppend(jobs: map<JobId, Job>, v: seq<JobId>, id: JobId)
    requires id in jobs && !jobs[id].submitted
    ensures Unserved(jobs, v + [id]) == Unserved(jobs, v) + [id]
  {
    if v == [] {
      assert [id][1..] == [];
    } else {
      assert (v + [id])[1..] == v[1..] + [id];
      UnservedAppend(jobs, v[1..], id);
    }
  }

  /** Handing out the first ready job takes it from the head of the unserved ones. */
  lemma {:induction false} UnservedHandOut(jobs: map<JobId, Job>, jobs': map<JobId, Job>, v: seq<JobId>, k: nat)
    requires k < |v| && forall i :: 0 <= i < |v| ==> v[i] in jobs && v[i] in jobs'
    requires !jobs[v[k]].submitted && forall i :: 0 <= i < k ==> jobs[v[i]].submitted
    requires forall i :: 0 <= i < |v| ==> jobs'[v[i]].submitted == (jobs[v[i]].submitted || i == k)
    ensures Unserved(jobs, v) == [v[k]] + Unserved(jobs', v)
  {
    if k == 0 {
      UnservedFrame(jobs, jobs', v[1..]);
    } else {
      UnservedHandOut(jobs, jobs', v[1..], k - 1);
    }
  }

  /** Erasing leaves a subsequence of the unserved jobs, and all of them if and only if none has the ticket. */
  lemma {:induction false} UnservedErase(jobs: map<JobId, Job>, v: seq<JobId>, ticket: int)
    requires forall i :: 0 <= i < |v| ==> v[i] in jobs
    ensures Sub(Unserved(jobs, EraseTicket(jobs, v, ticket)), Unserved(jobs, v))
    ensures |Unserved(jobs, EraseTicket(jobs, v, ticket))| == |Unserved(jobs, v)| <==>
            forall i :: 0 <= i < |v| && !jobs[v[i]].submitted ==> jobs[v[i]].ticket != ticket
  {
    if v == [] {
    } else {
      UnservedErase(jobs, v[1..], ticket);
      var rest, kept := EraseTicket(jobs, v[1..], ticket), jobs[v[0]].ticket != ticket;
      assert EraseTicket(jobs, v, ticket) == if kept then [v[0]] + rest else rest;
      assert ([v[0]] + rest)[1..] == rest;
      var head := if jobs[v[0]].submitted then [] else [v[0]];
      UnservedHead(jobs, v, head);
      UnservedHead(jobs, [v[0]] + rest, head);
      SubLength(Unserved(jobs, rest), Unserved(jobs, v[1..]));
      if kept {
        SubPrepend(head, Unserved(jobs, rest), Unserved(jobs, v[1..]));
      } else if head != [] {
        assert Unserved(jobs, v)[1..] == Unserved(jobs, v[1..]);
        SubMore(Unserved(jobs, rest), Unserved(jobs, v));
      }
    }
  }

  lemma UnservedHead(jobs: map<JobId, Job>, v: seq<JobId>, head: seq<JobId>)
    requires v != [] && v[0] in jobs && head == if jobs[v[0]].submitted then [] else [v[0]]
    ensures Unserved(jobs, v) == head + Unserved(jobs, v[1..])
    ensures head == [] ==> Unserved(jobs, v) == Unserved(jobs, v[1..])
  {}

  // ---------------------------------------------------------------- steps

  lemma SingleEntry(jobs: map<JobId, Job>, q: string, v: seq<JobId>, k: nat)
    requires Shape(jobs, q, v) && k < |v|
    ensures forall i :: 0 <= i < |v| && i != k ==> v[i] != v[k]
  {
    forall i | 0 <= i < |v| && i != k ensures v[i] != v[k] {
      assert if i < k then Ordered(jobs, v[i], v[k]) else Ordered(jobs, v[k], v[i]);
    }
  }

  lemma HandOutServes(s: State, q: string)
    requires Inv(s) && HandedOut(s, q) != None
    ensures [HandedOut(s, q).value] + Line(Apply(s, GetJob(q)), q) == Line(s, q)
  {
    var v, k := Vec(s, q), FirstReady(s.jobs, Vec(s, q));
    FirstReadySplits(s.jobs, q, v);
    SingleEntry(s.jobs, q, v, k);
    UnservedHandOut(s.jobs, Apply(s, GetJob(q)).jobs, v, k);
  }

  lemma GetJobElsewhere(s: State, r: string, q: string)
    requires Inv(s) && (r == q ==> HandedOut(s, q) == None)
    ensures Line(Apply(s, GetJob(r)), q) == Line(s, q)
  {
    var s', v := Apply(s, GetJob(r)), Vec(s, q);
    assert Vec(s', q) == v;
    forall i | 0 <= i < |v| ensures v[i] in s.jobs && v[i] in s'.jobs && s'.jobs[v[i]] == s.jobs[v[i]] {
      assert LiveEntry(s.jobs, q, v[i]);
      if HandedOut(s, r) != None { assert LiveEntry(s.jobs, r, HandedOut(s, r).value); }
    }
    UnservedFrame(s.jobs, s'.jobs, v);
  }

  lemma GetJobServes(s: State, r: string, q: string)
    requires Inv(s)
    ensures ServedNow(s, GetJob(r), q) + Line(Apply(s, GetJob(r)), q) == Line(s, q)
  {
    hide Inv, Apply, Line, HandedOut;
    if r == q && HandedOut(s, q) != None {
      HandOutServes(s, q);
    } else {
      GetJobElsewhere(s, r, q);
    }
  }

  lemma EnqueueServes(s: State, id: JobId, q: string)
    requires Inv(s) && Enabled(s, Enqueue(id))
    ensures Line(Apply(s, Enqueue(id)), q) == Line(s, q) + SubmittedNow(s, Enqueue(id), q)
  {
    var s' := Apply(s, Enqueue(id));
    UnservedFrame(s.jobs, s'.jobs, Vec(s, q));
    if s.jobs[id].queue == q { UnservedAppend(s'.jobs, Vec(s, q), id); }
  }

  lemma EraseServes(s: State, id: JobId, q: string)
    requires Inv(s) && Enabled(s, Erase(id))
    ensures Sub(Line(Apply(s, Erase(id)), q), Line(s, q))
    ensures |Line(Apply(s, Erase(id)), q)| == |Line(s, q)| <==> !TakesUnserved(s, Erase(id), q)
  {
    var s', v := Apply(s, Erase(id)), Vec(s, q);
    EraseTicketKeeps(s.jobs, q, v, s.jobs[id].ticket);
    forall i | 0 <= i < |Vec(s', q)| ensures Vec(s', q)[i] in s.jobs { assert Vec(s', q)[i] in v; }
    UnservedFrame(s.jobs, s'.jobs, Vec(s', q));
    if s.jobs[id].queue == q { UnservedErase(s.jobs, v, s.jobs[id].ticket); } else { SubSame(Line(s, q)); }
  }

  lemma OtherServes(s: State, step: Step, q: string)
    requires Inv(s) && Enabled(s, step) && (step.New? || step.Lookup? || step.Complete? || step.Delete?)
    ensures Line(Apply(s, step), q) == Line(s, q)
  {
    UnservedFrame(s.jobs, Apply(s, step).jobs, Vec(s, q));
  }

  lemma StepBalances(s: State, step: Step, q: string)
    requires Inv(s) && Enabled(s, step) && !step.Erase?
    ensures ServedNow(s, step, q) + Line(Apply(s, step), q) == Line(s, q) + SubmittedNow(s, step, q)
  {
    hide Line, Apply, Inv;
    var line, line' := Line(s, q), Line(Apply(s, step), q);
    assert line + [] == line && [] + line' == line';
    match step
    case GetJob(r) => GetJobServes(s, r, q);
    case Enqueue(id) => EnqueueServes(s, id, q);
    case _ => OtherServes(s, step, q);
  }

  /** What one step does to the line: only removals can take somebody out of it. */
  lemma StepServes(s: State, step: Step, q: string)
    requires Inv(s) && Enabled(s, step)
    ensures Sub(ServedNow(s, step, q) + Line(Apply(s, step), q), Line(s, q) + SubmittedNow(s, step, q))
    ensures |ServedNow(s, step, q) + Line(Apply(s, step), q)| == |Line(s, q) + SubmittedNow(s, step, q)| <==>
            !TakesUnserved(s, step, q)
  {
    hide Line, Apply, Inv, Sub;
    if step.Erase? {
      EraseServes(s, step.id, q);
      assert Line(s, q) + [] == Line(s, q) && [] + Line(Apply(s, step), q) == Line(Apply(s, step), q);
    } else {
      StepBalances(s, step, q);
      SubSame(Line(s, q) + SubmittedNow(s, step, q));
    }
  }

  // ---------------------------------------------------------------- runs

  /** How the accounts of the first step and of the rest of a run add up. */
  lemma AddUp(
      now: seq<JobId>, line': seq<JobId>, line: seq<JobId>, added: seq<JobId>,
      served: seq<JobId>, last: seq<JobId>, submitted: seq<JobId>)
    requires Sub(now + line', line + added) && Sub(served + last, line' + submitted)
    ensures Sub((now + served) + last, line + (added + submitted))
  {
    hide Sub;
    var a, b, c := (now + served) + last, now + (line' + submitted), line + (added + submitted);
    assert Sub(a, b) by {
      assert a == now + (served + last);
      SubPrepend(now, served + last, line' + submitted);
    }
    assert Sub(b, c) by {
      assert b == (now + line') + submitted && c == (line + added) + submitted;
      SubAppend(now + line', line + added, submitted);
    }
    SubTrans(a, b, c);
  }

  /**
   * First come, first served, over every interleaving: what a run hands out from a queue, followed by what
   * is left waiting, is a subsequence of what was waiting before followed by what was submitted meanwhile.
   * Nobody is missing if and only if no removal took an unserved job.
   */
  lemma {:induction false} FirstComeFirstServed(s: State, steps: seq<Step>, q: string)
    requires Inv(s) && CanRun(s, steps)
    ensures Sub(Served(s, steps, q) + Line(After(s, steps), q), Line(s, q) + Submitted(s, steps, q))
    ensures Served(s, steps, q) + Line(After(s, steps), q) == Line(s, q) + Submitted(s, steps, q) <==>
            KeepsLine(s, steps, q)
    decreases |steps|
  {
    hide Apply, Line, Inv, ServedNow, SubmittedNow, TakesUnserved, Sub;
    if steps == [] {
      assert Line(s, q) + [] == Line(s, q) && [] + Line(s, q) == Line(s, q);
      SubSame(Line(s, q));
    } else {
      var s1, rest := Apply(s, steps[0]), steps[1..];
      StepKeepsInv(s, steps[0]);
      StepServes(s, steps[0], q);
      FirstComeFirstServed(s1, rest, q);
      AddUp(ServedNow(s, steps[0], q), Line(s1, q), Line(s, q), SubmittedNow(s, steps[0], q),
            Served(s1, rest, q), Line(After(s1, rest), q), Submitted(s1, rest, q));
      SubLength(ServedNow(s, steps[0], q) + Line(s1, q), Line(s, q) + SubmittedNow(s, steps[0], q));
      SubLength(Served(s1, rest, q) + Line(After(s1, rest), q), Line(s1, q) + Submitted(s1, rest, q));
      SubLength(Served(s, steps, q) + Line(After(s, steps), q), Line(s, q) + Submitted(s, steps, q));
    }
  }

  // ---------------------------------------------------------------- every get_job serves, while it can

  /** The line is the part of the vector behind the jobs that were handed out: all of it, in order. */
  lemma LineExact(s: State, q: string) returns (k: nat)
    requires Inv(s)
    ensures var v := Vec(s, q);
            k <= |v| && Line(s, q) == v[k..] &&
            (forall i :: 0 <= i < k ==> s.jobs[v[i]].submitted) && forall i :: k <= i < |v| ==> !s.jobs[v[i]].submitted
  {
    k := FirstReady(s.jobs, Vec(s, q));
    FirstReadySplits(s.jobs, q, Vec(s, q));
    UnservedSplits(s.jobs, Vec(s, q), k);
  }

  lemma {:induction false} UnservedSplits(jobs: map<JobId, Job>, v: seq<JobId>, k: nat)
    requires k <= |v| && forall i :: 0 <= i < |v| ==> v[i] in jobs
    requires forall i :: 0 <= i < |v| ==> (jobs[v[i]].submitted <==> i < k)
    ensures Unserved(jobs, v) == v[k..]
  {
    if v == [] {
    } else if k == 0 {
      UnservedSplits(jobs, v[1..], 0);
    } else {
      UnservedSplits(jobs, v[1..], k - 1);
      assert v[1..][k - 1..] == v[k..];
    }
  }

  /** get_job hands out the head of the line, and nothing if and only if the line is empty. */
  lemma HandOutExact(s: State, q: string)
    requires Inv(s)
    ensures HandedOut(s, q) == None <==> Line(s, q) == []
    ensures Line(s, q) != [] ==>
              HandedOut(s, q) == Some(Line(s, q)[0]) && Line(Apply(s, GetJob(q)), q) == Line(s, q)[1..]
  {
    var v, first := Vec(s, q), FirstReady(s.jobs, Vec(s, q));
    FirstReadySplits(s.jobs, q, v);
    UnservedSplits(s.jobs, v, first);
    if HandedOut(s, q) != None {
      HandOutServes(s, q);
    }
  }

  lemma {:induction false} RunPrefix(s: State, steps: seq<Step>, n: nat)
    requires CanRun(s, steps) && n < |steps|
    ensures CanRun(s, steps[..n]) && Enabled(After(s, steps[..n]), steps[n]) && CanRun(s, steps[..n + 1])
    ensures After(s, steps[..n + 1]) == Apply(After(s, steps[..n]), steps[n])
    decreases n
  {
    if n == 0 {
      assert steps[..1] == [steps[0]] && steps[..1][1..] == [];
    } else {
      RunPrefix(Apply(s, steps[0]), steps[1..], n - 1);
      assert steps[..n][1..] == steps[1..][..n - 1] && steps[..n + 1][1..] == steps[1..][..n];
    }
  }

  lemma {:induction false} ServedOneMore(s: State, steps: seq<Step>, n: nat, q: string)
    requires CanRun(s, steps) && n < |steps| && CanRun(s, steps[..n]) && CanRun(s, steps[..n + 1])
    ensures Served(s, steps[..n + 1], q) ==
            Served(s, steps[..n], q) + ServedNow(After(s, steps[..n]), steps[n], q)
    decreases n
  {
    hide Apply, ServedNow;
    if n == 0 {
      assert steps[..1] == [steps[0]] && steps[..1][1..] == [];
    } else {
      var s1 := Apply(s, steps[0]);
      assert steps[..n][1..] == steps[1..][..n - 1] && steps[..n + 1][1..] == steps[1..][..n];
      ServedOneMore(s1, steps[1..], n - 1, q);
    }
  }

  /** In every run, each get_job step serves the head of the line, unless the line is empty at that moment. */
  lemma EveryGetJobServes(s: State, steps: seq<Step>, n: nat, q: string)
    requires Inv(s) && CanRun(s, steps) && n < |steps| && steps[n] == GetJob(q)
    ensures CanRun(s, steps[..n]) && CanRun(s, steps[..n + 1])
    ensures var line := Line(After(s, steps[..n]), q);
            Served(s, steps[..n + 1], q) == Served(s, steps[..n], q) + if line == [] then [] else [line[0]]
  {
    RunPrefix(s, steps, n);
    RunKeepsInv(s, steps[..n]);
    HandOutExact(After(s, steps[..n]), q);
    ServedOneMore(s, steps, n, q);
  }

  /** How often a run tries to get a job from the queue. */
  function Attempts(steps: seq<Step>, q: string): nat {
    if steps == [] then 0 else (if steps[0] == GetJob(q) then 1 else 0) + Attempts(steps[1..], q)
  }

  /** As long as nobody is taken out of the line, no attempt is wasted on those waiting at the start. */
  lemma {:induction false} AttemptsServe(s: State, steps: seq<Step>, q: string)
    requires Inv(s) && CanRun(s, steps) && KeepsLine(s, steps, q)
    ensures |Served(s, steps, q)| >= Attempts(steps, q) || |Served(s, steps, q)| >= |Line(s, q)|
    decreases |steps|
  {
    hide Apply, Line, Inv, SubmittedNow, TakesUnserved, Sub, HandedOut;
    if steps == [] {
    } else {
      StepKeepsInv(s, steps[0]);
      StepServes(s, steps[0], q);
      HandOutExact(s, q);
      AttemptsServe(Apply(s, steps[0]), steps[1..], q);
    }
  }

  /** A job with w unserved jobs ahead of it is what the (w+1)-th attempt of get_job returns, if there is one. */
  lemma WaitingTime(s: State, steps: seq<Step>, q: string, w: nat)
    requires Inv(s) && CanRun(s, steps) && KeepsLine(s, steps, q)
    requires w < |Line(s, q)|
    ensures Attempts(steps, q) > w ==> |Served(s, steps, q)| > w
    ensures |Served(s, steps, q)| > w ==> Served(s, steps, q)[w] == Line(s, q)[w]
    ensures |Served(s, steps, q)| <= w ==> Line(s, q)[w] in Line(After(s, steps), q)
  {
    FirstComeFirstServed(s, steps, q);
    AttemptsServe(s, steps, q);
    var line := Served(s, steps, q) + Line(After(s, steps), q);
    assert line[w] == Line(s, q)[w];
  }

  /** From the start of any run, jobs are handed out in the order of their submission. */
  lemma ServedInOrder(steps: seq<Step>, q: string)
    requires CanRun(START, steps)
    ensures Sub(Served(START, steps, q), Submitted(START, steps, q))
  {
    FirstComeFirstServed(START, steps, q);
    var served, line := Served(START, steps, q), Line(After(START, steps), q);
    assert Line(START, q) == [] && [] + Submitted(START, steps, q) == Submitted(START, steps, q);
    assert served + [] == served;
    hide Sub, Line;
    SubFront(served, line);
    SubTrans(served, served + line, Submitted(START, steps, q));
  }

  lemma {:induction false} SubFront(a: seq<JobId>, b: seq<JobId>)
    ensures Sub(a, a + b)
  {
    if a == [] {
    } else {
      assert (a + b)[1..] == a[1..] + b;
      SubFront(a[1..], b);
    }
  }

  /** A job that was handed out is not handed out again, from any queue, as long as it is not deleted. */
  lemma {:induction false} NotServedAgain(s: State, steps: seq<Step>, id: JobId, q: string)
    requires CanRun(s, steps) && Delete(id) !in steps
    requires id in s.jobs && s.jobs[id].submitted
    ensures id !in Served(s, steps, q)
    decreases |steps|
  {
    if steps == [] {
    } else {
      assert steps[0] in steps;
      assert forall x :: x in steps[1..] ==> x in steps;
      NotServedAgain(Apply(s, steps[0]), steps[1..], id, q);
    }
  }

  /** In every run, no job is served twice while it lives. */
  lemma NoneServedTwice(s: State, r: string, rest: seq<Step>, q: string)
    requires HandedOut(s, r) != None && CanRun(Apply(s, GetJob(r)), rest) && Delete(HandedOut(s, r).value) !in rest
    ensures HandedOut(s, r).value !in Served(Apply(s, GetJob(r)), rest, q)
  {
    NotServedAgain(Apply(s, GetJob(r)), rest, HandedOut(s, r).value, q);
  }

  // ---------------------------------------------------------------- tickets

  /** The job that a step hands out, from whatever queue. */
  ghost function Issued(s: State, step: Step): seq<JobId> {
    if step.GetJob? then ServedNow(s, step, step.queue) else []
  }

  /** The jobs that a run hands out, from whatever queue, in order. */
  ghost function AllServed(s: State, steps: seq<Step>): seq<JobId>
    requires CanRun(s, steps)
    decreases |steps|
  {
    if steps == [] then [] else Issued(s, steps[0]) + AllServed(Apply(s, steps[0]), steps[1..])
  }

  lemma StepIssues(s: State, step: Step)
    requires Enabled(s, step)
    ensures Apply(s, step).lastTicket == s.lastTicket + |Issued(s, step)| <= s.lastTicket + 1
    ensures Issued(s, step) != [] ==>
              var ticket := s.lastTicket + 1;
              ticket in Apply(s, step).consumers && Apply(s, step).consumers[ticket].own == Issued(s, step)[0]
  {}

  /** The consumer is still there, for the same job, and with the pointer it had, if any. */
  ghost predicate SameConsumer(s: State, s': State, ticket: int)
    requires ticket in s.consumers
  {
    ticket in s'.consumers && s'.consumers[ticket].own == s.consumers[ticket].own &&
    s'.consumers[ticket].queue == s.consumers[ticket].queue &&
    (s.consumers[ticket].found != None ==> s'.consumers[ticket] == s.consumers[ticket])
  }

  lemma StepKeepsConsumers(s: State, step: Step, ticket: int)
    requires Inv(s) && Enabled(s, step)
    ensures ticket in s.consumers && step != Complete(ticket) ==> SameConsumer(s, Apply(s, step), ticket)
    ensures ticket !in s.consumers && ticket <= s.lastTicket ==> ticket !in Apply(s, step).consumers
    ensures step == Complete(ticket) ==> ticket !in Apply(s, step).consumers
  {}

  /** A consumer, and the pointer it found, stay until it completes. */
  lemma {:induction false} ConsumerStays(s: State, steps: seq<Step>, ticket: int)
    requires Inv(s) && CanRun(s, steps) && ticket in s.consumers && Complete(ticket) !in steps
    ensures SameConsumer(s, After(s, steps), ticket)
    decreases |steps|
  {
    hide Apply, Inv;
    if steps == [] {
    } else {
      assert steps[0] in steps && forall x :: x in steps[1..] ==> x in steps;
      StepKeepsInv(s, steps[0]);
      StepKeepsConsumers(s, steps[0], ticket);
      ConsumerStays(Apply(s, steps[0]), steps[1..], ticket);
    }
  }

  /** Once a consumer has completed, there is no more lookup or completion under its ticket. */
  lemma {:induction false} CompletesOnce(s: State, steps: seq<Step>, ticket: int)
    requires Inv(s) && CanRun(s, steps) && ticket !in s.consumers && ticket <= s.lastTicket
    ensures ticket !in After(s, steps).consumers && Complete(ticket) !in steps && Lookup(ticket) !in steps
    decreases |steps|
  {
    hide Apply, Inv;
    if steps == [] {
    } else {
      StepKeepsInv(s, steps[0]);
      StepKeepsConsumers(s, steps[0], ticket);
      StepIssues(s, steps[0]);
      CompletesOnce(Apply(s, steps[0]), steps[1..], ticket);
      assert steps == [steps[0]] + steps[1..];
    }
  }

  /** Tickets count the jobs handed out, over all queues. */
  lemma {:induction false} TicketsCount(s: State, steps: seq<Step>)
    requires CanRun(s, steps)
    ensures After(s, steps).lastTicket == s.lastTicket + |AllServed(s, steps)|
    decreases |steps|
  {
    hide Apply, Issued;
    if steps == [] {
    } else {
      StepIssues(s, steps[0]);
      TicketsCount(Apply(s, steps[0]), steps[1..]);
    }
  }

  /** The n-th job handed out, counted from 0, gets the n-th ticket, and its consumer is there until it completes. */
  lemma {:induction false} TicketsInOrder(s: State, steps: seq<Step>, n: nat)
    requires Inv(s) && CanRun(s, steps) && n < |AllServed(s, steps)|
    requires Complete(s.lastTicket + 1 + n) !in steps
    ensures var ticket, after := s.lastTicket + 1 + n, After(s, steps).consumers;
            ticket in after && after[ticket].own == AllServed(s, steps)[n]
    decreases |steps|
  {
    hide Apply, Issued, Inv;
    var s1, rest, now := Apply(s, steps[0]), steps[1..], Issued(s, steps[0]);
    assert forall x :: x in rest ==> x in steps;
    StepKeepsInv(s, steps[0]);
    StepIssues(s, steps[0]);
    if n < |now| {
      ConsumerStays(s1, rest, s.lastTicket + 1);
    } else {
      TicketsInOrder(s1, rest, n - |now|);
    }
  }

  // ---------------------------------------------------------------- clean tickets

  lemma {:induction false} CleanRunsKeepLine(s: State, steps: seq<Step>, q: string)
    requires Inv(s) && Clean(s) && CanRun(s, steps) && CleanSteps(steps)
    ensures KeepsLine(s, steps, q)
    decreases |steps|
  {
    hide Inv, Clean, Apply, TakesUnserved;
    if steps == [] {
    } else {
      StepKeepsInv(s, steps[0]);
      StepKeepsClean(s, steps[0]);
      CleanTakesNone(s, steps[0], q);
      CleanRunsKeepLine(Apply(s, steps[0]), steps[1..], q);
    }
  }

  lemma CleanTakesNone(s: State, step: Step, q: string)
    requires Inv(s) && Clean(s) && Enabled(s, step)
    ensures !TakesUnserved(s, step, q)
  {
    if step.Erase? {
      CleanRemoval(s, step.id);
      assert CleanJob(s, step.id);
    }
  }

  /** With clean tickets the jobs handed out are a prefix of the jobs submitted, and the rest is waiting. */
  lemma CleanRunsServeAll(steps: seq<Step>, q: string)
    requires CanRun(START, steps) && CleanSteps(steps)
    ensures Served(START, steps, q) + Line(After(START, steps), q) == Submitted(START, steps, q)
  {
    CleanRunsKeepLine(START, steps, q);
    FirstComeFirstServed(START, steps, q);
    assert Line(START, q) == [];
  }
}
