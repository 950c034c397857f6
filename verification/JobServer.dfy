/** The locked regions of the job queue as code. */
module JobServers {
  import opened Wrappers
  import opened JobQueue

  /** One round of the erase loop: the entries in front of position i are settled. */
  lemma EraseStep(jobs: map<JobId, Job>, v: seq<JobId>, i: nat, ticket: int)
    requires i < |v| && v[i] in jobs
    ensures v[..i] + EraseTicket(jobs, v[i..], ticket) ==
            if jobs[v[i]].ticket == ticket then
              var erased := v[..i] + v[i + 1..];
              erased[..i] + EraseTicket(jobs, erased[i..], ticket)
            else v[..i + 1] + EraseTicket(jobs, v[i + 1..], ticket)
  {
    var erased := v[..i] + v[i + 1..];
    assert v[i..][1..] == v[i + 1..] == erased[i..] && erased[..i] == v[..i];
    assert v[..i + 1] == v[..i] + [v[i]];
  }

  class JobServer {
    var queues: map<string, seq<JobId>>
    var jobs: map<JobId, Job>
    var lastTicket: int
    var consumers: map<int, Consumer>  // what the consuming side holds

    ghost function Abs(): State
      reads this
    {
      State(queues, jobs, lastTicket, consumers)
    }

    constructor ()
      ensures Abs() == START && Inv(Abs())
    {
      queues, jobs, lastTicket, consumers := map[], map[], 0, map[];
    }

    /** operator[] of the map, which makes an empty vector for a new name. */
    method Open(q: string) returns (v: seq<JobId>)
      modifies this`queues
      ensures v == Vec(old(Abs()), q) && queues == old(queues)[q := v]
    {
      if q !in queues {
        queues := queues[q := []];
      }
      v := queues[q];
    }

    /** First locked region of submit. */
    method SubmitEnqueue(id: JobId)
      requires Enabled(Abs(), Enqueue(id))
      modifies this
      ensures Abs() == Apply(old(Abs()), Enqueue(id))
      ensures queues == old(queues)[old(jobs)[id].queue := Vec(old(Abs()), old(jobs)[id].queue) + [id]]
      ensures jobs == old(jobs)[id := old(jobs)[id].(ready := true, phase := Waiting)]
      ensures lastTicket == old(lastTicket) && consumers == old(consumers)
    {
      var q := jobs[id].queue;
      var v := Open(q);
      queues := queues[q := v + [id]];
      jobs := jobs[id := jobs[id].(ready := true, phase := Waiting)];
    }

    /** One attempt of get_job; a consumer that got a job holds its ticket and queue name from then on. */
    method TryGetJob(q: string) returns (r: Option<JobId>)
      requires Inv(Abs())
      modifies this
      ensures Abs() == Apply(old(Abs()), GetJob(q)) && r == HandedOut(old(Abs()), q)
      ensures r == None <==> forall i :: 0 <= i < |Vec(old(Abs()), q)| ==> old(jobs)[Vec(old(Abs()), q)[i]].submitted
      ensures r == None ==> jobs == old(jobs) && lastTicket == old(lastTicket) && consumers == old(consumers)
      ensures r != None ==>
                var v := Vec(old(Abs()), q);
                (exists k :: 0 <= k < |v| && v[k] == r.value && !old(jobs)[r.value].submitted &&
                   forall i :: 0 <= i < k ==> old(jobs)[v[i]].submitted) &&
                lastTicket == old(lastTicket) + 1 &&
                jobs == old(jobs)[r.value := old(jobs)[r.value].(submitted := true, ticket := lastTicket)] &&
                consumers == old(consumers)[lastTicket := Consumer(r.value, q, None)]
      ensures queues == old(queues)[q := Vec(old(Abs()), q)]
    {
      var v := Open(q);
      r := None;
      var i := 0;
      while i < |v|
        invariant 0 <= i <= |v| && r == None
        invariant FirstReady(jobs, v) == i + FirstReady(jobs, v[i..])
        invariant forall x :: 0 <= x < i ==> jobs[v[x]].submitted
        invariant lastTicket == old(lastTicket) && jobs == old(jobs) && consumers == old(consumers)
        invariant queues == old(queues)[q := v]
      {
        var id := v[i];
        if jobs[id].ready && !jobs[id].submitted {
          lastTicket := lastTicket + 1;
          jobs := jobs[id := jobs[id].(ticket := lastTicket, submitted := true)];
          consumers := consumers[lastTicket := Consumer(id, q, None)];
          return Some(id);
        }
        assert v[i..][1..] == v[i + 1..];
        i := i + 1;
      }
    }

    /** find_job goes on scanning after a hit. Without a hit the source leaves its result unset; here it is None. */
    method FindJob(q: string, ticket: int) returns (r: Option<JobId>)
      requires Inv(Abs())
      modifies this`queues
      ensures r == LastWithTicket(jobs, Vec(old(Abs()), q), ticket)
      ensures r == None <==> forall i :: 0 <= i < |Vec(old(Abs()), q)| ==> jobs[Vec(old(Abs()), q)[i]].ticket != ticket
      ensures r != None ==>
                var v := Vec(old(Abs()), q);
                exists k :: 0 <= k < |v| && v[k] == r.value && jobs[v[k]].ticket == ticket &&
                  forall i :: k < i < |v| ==> jobs[v[i]].ticket != ticket
      ensures queues == old(queues)[q := Vec(old(Abs()), q)]
    {
      var v := Open(q);
      r := None;
      ghost var k := 0;
      for i := 0 to |v|
        invariant r == LastWithTicket(jobs, v[..i], ticket)
        invariant r == None ==> forall x :: 0 <= x < i ==> jobs[v[x]].ticket != ticket
        invariant r != None ==> 0 <= k < i && v[k] == r.value && jobs[v[k]].ticket == ticket
        invariant r != None ==> forall x :: k < x < i ==> jobs[v[x]].ticket != ticket
        invariant queues == old(queues)[q := v]
      {
        assert v[..i + 1][..i] == v[..i];
        if jobs[v[i]].ticket == ticket {
          r := Some(v[i]);
          k := i;
        }
      }
      assert v[..|v|] == v;
    }

    /** The consumer's first locked region: find_job by what it holds. */
    method ConsumerLookup(ticket: int)
      requires Inv(Abs()) && Enabled(Abs(), Lookup(ticket))
      modifies this
      ensures Abs() == Apply(old(Abs()), Lookup(ticket))
    {
      var c := consumers[ticket];
      var r := FindJob(c.queue, ticket);
      consumers := consumers[ticket := c.(found := r)];
    }

    /** Its second one: the write through the pointer that was found. */
    method ConsumerComplete(ticket: int)
      requires Enabled(Abs(), Complete(ticket))
      modifies this
      ensures Abs() == Apply(old(Abs()), Complete(ticket))
      ensures var id := old(consumers)[ticket].found.value;
              jobs == old(jobs)[id := old(jobs)[id].(completed := true)] && consumers == old(consumers) - {ticket} &&
              queues == old(queues) && lastTicket == old(lastTicket)
    {
      var id := consumers[ticket].found.value;
      jobs := jobs[id := jobs[id].(completed := true)];
      consumers := consumers - {ticket};
    }

    /** The erase loop: the iterator stays where it is when the entry under it is erased. */
    method EraseEntries(q: string, ticket: int)
      requires forall k :: 0 <= k < |Vec(Abs(), q)| ==> Vec(Abs(), q)[k] in jobs
      modifies this`queues
      ensures queues == old(queues)[q := EraseTicket(jobs, Vec(old(Abs()), q), ticket)]
    {
      var v := Open(q);
      ghost var all := v;
      var i := 0;
      while i < |v|
        invariant 0 <= i <= |v| && (forall k :: 0 <= k < |v| ==> v[k] in jobs)
        invariant v[..i] + EraseTicket(jobs, v[i..], ticket) == EraseTicket(jobs, all, ticket)
        invariant queues == old(queues)[q := v]
        decreases |v| - i
      {
        EraseStep(jobs, v, i, ticket);
        if jobs[v[i]].ticket == ticket {
          v := v[..i] + v[i + 1..];
          queues := queues[q := v];
        } else {
          i := i + 1;
        }
      }
      assert v[i..] == [] && v[..i] + [] == v;
      assert EraseTicket(jobs, all, ticket) == v;
    }

    /** Last locked region of submit. */
    method SubmitErase(id: JobId)
      requires Inv(Abs()) && Enabled(Abs(), Erase(id))
      modifies this
      ensures Abs() == Apply(old(Abs()), Erase(id))
      ensures var q := old(jobs)[id].queue;
              queues.Keys == old(queues).Keys + {q} &&
              (forall r :: r in old(queues) && r != q ==> queues[r] == old(queues)[r]) &&
              forall x :: x in queues[q] <==> x in Vec(old(Abs()), q) && old(jobs)[x].ticket != old(jobs)[id].ticket
      ensures jobs == old(jobs)[id := old(jobs)[id].(phase := Returned)]
      ensures lastTicket == old(lastTicket) && consumers == old(consumers)
    {
      var q, ticket := jobs[id].queue, jobs[id].ticket;
      EraseTicketKeeps(jobs, q, Vec(Abs(), q), ticket);
      hide Inv, Shape, EraseTicket;
      EraseEntries(q, ticket);
      jobs := jobs[id := jobs[id].(phase := Returned)];
    }
  }
}
