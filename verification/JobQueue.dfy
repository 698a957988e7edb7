/** server/server.c: the ring of accepted connections, which is never checked for being full. */
module JobQueue {
  import opened Options

  const MAX_QUEUE := 100

  /** The largest index below n on slot j of the ring: the last job of n written there. */
  function Last(n: nat, j: nat): (i: int)
    requires j < MAX_QUEUE
    ensures i < n && (n > j ==> 0 <= i && i % MAX_QUEUE == j && n <= i + MAX_QUEUE)
  {
    n - 1 - (n - 1 - j) % MAX_QUEUE
  }

  /** It is the only index on that slot among the last hundred. */
  lemma LastIsOnly(n: nat, j: nat, i: nat)
    requires j < MAX_QUEUE && i < n <= i + MAX_QUEUE && i % MAX_QUEUE == j
    ensures n > j && Last(n, j) == i
  {
  }

  /** One more job changes the last job of its own slot only. */
  lemma LastOfOneMore(n: nat, j: nat)
    requires j < MAX_QUEUE
    ensures n + 1 > j ==> Last(n + 1, j) == if n % MAX_QUEUE == j then n else Last(n, j)
    ensures n % MAX_QUEUE != j && n + 1 > j ==> n > j
  {
    if n % MAX_QUEUE == j {
      LastIsOnly(n + 1, j, n);
    } else if n > j {
      LastIsOnly(n + 1, j, Last(n, j));
    }
  }

  /** Going round the ring in two steps is going round it in one. */
  lemma Around(n: nat, i: nat)
    ensures (n % MAX_QUEUE + i) % MAX_QUEUE == (n + i) % MAX_QUEUE
  {
  }

  // -------------------------------------------------------------------------- the ring, on values

  datatype Ring = Ring(slots: seq<int>, head: nat, tail: nat, count: nat) {
    predicate Valid() {
      |slots| == MAX_QUEUE && head < MAX_QUEUE && tail < MAX_QUEUE
    }
  }

  function Empty(): (q: Ring)
    ensures q.Valid()
  {
    Ring(seq(MAX_QUEUE, i => 0), 0, 0, 0)
  }

  function Put(q: Ring, job: int): (r: Ring)
    requires q.Valid()
    ensures r.Valid()
  {
    Ring(q.slots[q.tail := job], q.head, (q.tail + 1) % MAX_QUEUE, q.count + 1)
  }

  function Take(q: Ring): (r: Ring)
    requires q.Valid() && q.count > 0
    ensures r.Valid()
  {
    Ring(q.slots, (q.head + 1) % MAX_QUEUE, q.tail, q.count - 1)
  }

  /** The job i places behind the next one. */
  function InLine(q: Ring, i: nat): int
    requires q.Valid()
  {
    q.slots[(q.head + i) % MAX_QUEUE]
  }

  /** The jobs in the ring, the next one first. */
  function Waiting(q: Ring): seq<int>
    requires q.Valid()
  {
    seq(q.count, i requires 0 <= i < q.count => InLine(q, i))
  }

  // --------------------------------------------------------------------------- the ring in memory

  class Queue {
    const slots: array<int>
    var head: nat
    var tail: nat
    var count: nat

    ghost predicate Valid()
      reads this, slots
    {
      Contents().Valid()
    }

    ghost function Contents(): Ring
      reads this, slots
    {
      Ring(slots[..], head, tail, count)
    }

    constructor ()
      ensures Valid() && Contents() == Empty() && fresh(slots)
    {
      slots := new int[MAX_QUEUE](i => 0);
      head, tail, count := 0, 0, 0;
      new;
      assert slots[..] == Empty().slots;
    }

    method Enqueue(job: int)
      requires Valid()
      modifies this, slots
      ensures Valid() && Contents() == Put(old(Contents()), job)
    {
      slots[tail] := job;
      tail := (tail + 1) % MAX_QUEUE;
      count := count + 1;
    }

    /** What follows the wait for count > 0. */
    method Dequeue() returns (job: int)
      requires Valid() && count > 0
      modifies this
      ensures Valid() && Contents() == Take(old(Contents())) && job == old(slots[head])
    {
      job := slots[head];
      head := (head + 1) % MAX_QUEUE;
      count := count - 1;
    }
  }

  // ---------------------------------------------------------------------------------- whole runs

  datatype Op = Accept(job: int) | Serve

  /** A run: the jobs accepted and served so far; whether every job was `kept`, that is, served while
      at most a hundred were waiting; and whether, as long as that was so, the numbers are `apart`:
      each job, when it was accepted, had the number of no connection still waiting. */
  datatype Trace = Trace(ring: Ring, accepted: seq<int>, served: seq<int>, kept: bool, apart: bool)

  function Unserved(t: Trace): seq<int> {
    if |t.served| <= |t.accepted| then t.accepted[|t.served|..] else []
  }

  /** One more operation; None if it waits for a job. */
  function Do(t: Trace, op: Op): (r: Option<Trace>)
    requires t.ring.Valid()
    ensures r.Some? ==> r.value.ring.Valid()
  {
    match op
    case Accept(job) =>
      Some(t.(ring := Put(t.ring, job), accepted := t.accepted + [job],
              apart := t.apart && (t.kept ==> job !in Unserved(t))))
    case Serve =>
      if t.ring.count == 0 then None
      else Some(t.(ring := Take(t.ring), served := t.served + [t.ring.slots[t.ring.head]],
                   kept := t.kept && t.ring.count <= MAX_QUEUE))
  }

  /** The outcome of these operations; None if one of them waits for a job for ever. */
  function Run(ops: seq<Op>): (r: Option<Trace>)
    ensures r.Some? ==> r.value.ring.Valid()
  {
    if ops == [] then Some(Trace(Empty(), [], [], true, true))
    else
      match Run(ops[..|ops| - 1])
      case None => None
      case Some(t) => Do(t, ops[|ops| - 1])
  }

  lemma RunSnoc(ops: seq<Op>, t: Trace, op: Op)
    requires Run(ops) == Some(t)
    ensures Run(ops + [op]) == Do(t, op)
  {
    assert (ops + [op])[..|ops|] == ops;
  }

  /** What the ring is after any run: the head, the tail and the count follow from the numbers of
      jobs accepted and served, and every slot holds the last job accepted for it. */
  ghost predicate Tracks(t: Trace) {
    && t.ring.Valid()
    && |t.served| <= |t.accepted| && t.ring.count == |t.accepted| - |t.served|
    && t.ring.head == |t.served| % MAX_QUEUE && t.ring.tail == |t.accepted| % MAX_QUEUE
    && (forall j :: 0 <= j < MAX_QUEUE && j < |t.accepted| ==>
          t.ring.slots[j] == t.accepted[Last(|t.accepted|, j)])
  }

  lemma PutTracks(t: Trace, job: int, apart: bool)
    requires Tracks(t)
    ensures Tracks(t.(ring := Put(t.ring, job), accepted := t.accepted + [job], apart := apart))
  {
    hide Last;
    var n := |t.accepted|;
    var slots := Put(t.ring, job).slots;
    Around(n, 1);
    forall j | 0 <= j < MAX_QUEUE && j < n + 1
      ensures slots[j] == (t.accepted + [job])[Last(n + 1, j)]
    {
      LastOfOneMore(n, j);
    }
  }

  lemma TakeTracks(t: Trace, kept: bool)
    requires Tracks(t) && t.ring.count > 0
    ensures Tracks(t.(ring := Take(t.ring), served := t.served + [t.ring.slots[t.ring.head]], kept := kept))
  {
    hide Last;
    Around(|t.served|, 1);
  }

  lemma {:induction false} RunTracks(ops: seq<Op>, t: Trace)
    requires Run(ops) == Some(t)
    ensures Tracks(t)
    decreases |ops|
  {
    hide Last;
    if ops != [] {
      var u := Run(ops[..|ops| - 1]).value;
      RunTracks(ops[..|ops| - 1], u);
      hide Tracks, Put, Take;
      match ops[|ops| - 1]
      case Accept(job) => PutTracks(u, job, t.apart);
      case Serve => TakeTracks(u, t.kept);
    }
  }

  lemma TailFollowsHead(ops: seq<Op>, t: Trace)
    requires Run(ops) == Some(t)
    ensures t.ring.tail == (t.ring.head + t.ring.count) % 100
  {
    RunTracks(ops, t);
    Around(|t.served|, t.ring.count);
  }

  /** The next job served is the last one accepted on the slot of the next one due; it is the one
      due if and only if at most a hundred are waiting. */
  lemma NextServed(ops: seq<Op>, t: Trace)
    requires Run(ops) == Some(t) && t.ring.count > 0
    ensures var (n, due) := (|t.accepted|, |t.served|);
            && due % 100 < n && t.ring.slots[t.ring.head] == t.accepted[Last(n, due % 100)]
            && (Last(n, due % 100) == due <==> t.ring.count <= 100)
  {
    RunTracks(ops, t);
    if t.ring.count <= MAX_QUEUE {
      LastIsOnly(|t.accepted|, |t.served| % MAX_QUEUE, |t.served|);
    }
  }

  lemma CountsAgree(t: Trace)
    requires Tracks(t)
    ensures |t.served| <= |t.accepted| && t.ring.count == |t.accepted| - |t.served|
  {
  }

  ghost predicate Distinct(jobs: seq<int>) {
    forall i, k :: 0 <= i < k < |jobs| ==> jobs[i] != jobs[k]
  }

  /** Jobs are served in the order they were accepted in if and, as long as no number of a waiting
      connection is given out again, only if each is served while at most a hundred are waiting. */
  lemma {:induction false} ServedInOrder(ops: seq<Op>, t: Trace)
    requires Run(ops) == Some(t)
    ensures |t.served| <= |t.accepted|
    ensures t.kept ==> t.served == t.accepted[..|t.served|]
    ensures t.apart ==> (t.served == t.accepted[..|t.served|] <==> t.kept)
    ensures t.apart && t.kept ==> Distinct(t.accepted[|t.served|..])
    decreases |ops|
  {
    hide Last, Put, Take, Tracks;
    RunTracks(ops, t);
    CountsAgree(t);
    if ops != [] {
      var u := Run(ops[..|ops| - 1]).value;
      ServedInOrder(ops[..|ops| - 1], u);
      RunTracks(ops[..|ops| - 1], u);
      CountsAgree(u);
      match ops[|ops| - 1]
      case Accept(job) =>
        assert u.accepted == t.accepted[..|u.accepted|];
        assert t.accepted[..|t.served|] == u.accepted[..|u.served|];
        assert t.accepted[|t.served|..] == u.accepted[|u.served|..] + [job];
      case Serve =>
        NextServed(ops[..|ops| - 1], u);
        ServedNext(u, t, Last(|u.accepted|, |u.served| % MAX_QUEUE));
    }
  }

  /** One more job served: the one due, or a later one of those waiting. */
  lemma ServedNext(u: Trace, t: Trace, i: int)
    requires |u.served| < |u.accepted| && t.accepted == u.accepted && |u.served| <= i < |u.accepted|
    requires t.served == u.served + [u.accepted[i]]
    ensures u.served == u.accepted[..|u.served|] && i == |u.served| ==> t.served == t.accepted[..|t.served|]
    ensures t.served == t.accepted[..|t.served|] ==> u.served == u.accepted[..|u.served|]
    ensures Distinct(u.accepted[|u.served|..]) && t.served == t.accepted[..|t.served|] ==> i == |u.served|
    ensures Distinct(u.accepted[|u.served|..]) ==> Distinct(t.accepted[|t.served|..])
  {
    var due := |u.served|;
    assert u.accepted[..due + 1] == u.accepted[..due] + [u.accepted[due]];
    assert t.served[..due] == u.served && t.served[due] == u.accepted[i];
    assert t.accepted[..due + 1][due] == u.accepted[due];
    var waiting := u.accepted[due..];
    assert waiting[0] == u.accepted[due] && waiting[i - due] == u.accepted[i];
    assert t.accepted[due + 1..] == waiting[1..];
  }

  /** Every job was served while at most a hundred were waiting. */
  ghost predicate EachInTime(ops: seq<Op>) {
    forall n :: 0 <= n < |ops| && ops[n].Serve? && Run(ops[..n]).Some? ==> Run(ops[..n]).value.ring.count <= 100
  }

  /** Each job, when it was accepted, had the number of no connection still waiting. */
  ghost predicate EachApart(ops: seq<Op>) {
    forall n :: 0 <= n < |ops| && ops[n].Accept? && Run(ops[..n]).Some? ==> ops[n].job !in Unserved(Run(ops[..n]).value)
  }

  lemma {:induction false} KeptIsInTime(ops: seq<Op>, t: Trace)
    requires Run(ops) == Some(t)
    ensures t.kept <==> EachInTime(ops)
    ensures EachApart(ops) ==> t.apart
    decreases |ops|
  {
    hide Put, Take, Unserved;
    if ops != [] {
      var front := ops[..|ops| - 1];
      var u := Run(front).value;
      KeptIsInTime(front, u);
      forall n | 0 <= n < |front| ensures front[..n] == ops[..n] && front[n] == ops[n] {
      }
      assert ops[..|front|] == front;
      assert EachInTime(ops) <==> EachInTime(front) && (ops[|front|].Serve? ==> u.ring.count <= 100);
    }
  }

  /** So: while waiting connections have different numbers, jobs are served in the order in which they were
      accepted if and only if each is served with at most a hundred waiting. */
  lemma OrderExact(ops: seq<Op>, t: Trace)
    requires Run(ops) == Some(t)
    ensures |t.served| <= |t.accepted|
    ensures EachInTime(ops) ==> t.served == t.accepted[..|t.served|]
    ensures EachApart(ops) ==> (t.served == t.accepted[..|t.served|] <==> EachInTime(ops))
  {
    hide *;
    ServedInOrder(ops, t);
    KeptIsInTime(ops, t);
  }

  // ---------------------------------------------------------------------------- a run that overflows

  function Accepts(jobs: seq<int>): seq<Op> {
    seq(|jobs|, i requires 0 <= i < |jobs| => Accept(jobs[i]))
  }

  lemma {:induction false} AcceptAll(jobs: seq<int>) returns (t: Trace)
    ensures Run(Accepts(jobs)) == Some(t) && t.accepted == jobs && t.served == [] && t.kept
    ensures Distinct(jobs) ==> t.apart
  {
    if jobs == [] {
      t := Trace(Empty(), [], [], true, true);
    } else {
      var n := |jobs| - 1;
      var u := AcceptAll(jobs[..n]);
      assert Accepts(jobs)[..n] == Accepts(jobs[..n]);
      t := Run(Accepts(jobs)).value;
      assert jobs == jobs[..n] + [jobs[n]];
      assert Unserved(u) == jobs[..n];
      if Distinct(jobs) {
        assert Distinct(jobs[..n]);
      }
      hide Put;
    }
  }

  /** With 101 connections waiting, whatever their numbers, the last is served in the first's place. */
  lemma Overfull(jobs: seq<int>) returns (t: Trace)
    requires |jobs| == 101
    ensures Run(Accepts(jobs) + [Serve]) == Some(t)
    ensures t.accepted == jobs && t.served == [jobs[100]] && !t.kept && (Distinct(jobs) ==> t.apart)
  {
    var u := AcceptAll(jobs);
    RunTracks(Accepts(jobs), u);
    NextServed(Accepts(jobs), u);
    var ops := Accepts(jobs) + [Serve];
    assert ops[..|ops| - 1] == Accepts(jobs);
    t := Run(ops).value;
    hide Accepts, Put, Take;
  }

  lemma WaitingAt(t: Trace, i: nat)
    requires Tracks(t) && i < t.ring.count <= MAX_QUEUE
    ensures InLine(t.ring, i) == t.accepted[|t.served| + i]
  {
    var due := |t.served|;
    Around(due, i);
    LastIsOnly(|t.accepted|, (due + i) % MAX_QUEUE, due + i);
  }

  /** No job is lost or doubled: while the jobs were served in time and at most a hundred wait, the
      served and the waiting ones are the accepted ones. */
  lemma NothingLost(ops: seq<Op>, t: Trace)
    requires Run(ops) == Some(t) && t.kept && t.ring.count <= 100
    ensures t.served + Waiting(t.ring) == t.accepted
  {
    RunTracks(ops, t);
    ServedInOrder(ops, t);
    CountsAgree(t);
    hide Run, Tracks, InLine;
    forall i | 0 <= i < t.ring.count ensures Waiting(t.ring)[i] == t.accepted[|t.served| + i] {
      WaitingAt(t, i);
    }
    assert Waiting(t.ring) == t.accepted[|t.served|..];
  }
}
