/** server/server.c: the mutex and the condition variable around the job queue, as the acceptor and
    any number of workers interleave on them. */
module QueueMonitor {
  import opened Options
  import opened JobQueue

  /** A worker: outside dequeue_job, waiting for q_mutex, holding it at the test of q_count, asleep
      in pthread_cond_wait, woken (by a signal or not) and waiting for q_mutex again, holding it to
      take a job, holding it after, with the job. */
  datatype Worker = Outside | Entering | Testing | Asleep | Woken(signalled: bool) | Taking | Took(job: int)

  /** The acceptor: outside enqueue_job, waiting for q_mutex with a job, holding it before the job is in
      the ring, before the signal, after it. */
  datatype Acceptor = Away | Locking(job: int) | Putting(job: int) | Signalling | Unlocking

  /** `owner` holds q_mutex; the acceptor's number follows the workers'. The log says what has been done
      with the ring, in the order in which it was done. */
  datatype State = State(workers: seq<Worker>, acceptor: Acceptor, owner: Option<nat>, ring: Ring, log: seq<Op>)

  /** What happens next. A signal wakes one of those asleep, if any is; Spurious wakes one without a
      signal, or with a signal that wakes more than one. */
  datatype Turn = Arrival(job: int) | ByWorker(i: nat) | ByAcceptor(wakes: Option<nat>) | Spurious(i: nat)

  predicate SomeoneSleeps(s: State) {
    exists i :: 0 <= i < |s.workers| && s.workers[i] == Asleep
  }

  function WorkerStep(s: State, i: nat): (t: Option<State>)
    requires s.ring.Valid() && i < |s.workers|
    ensures t.Some? ==> t.value.ring.Valid()
  {
    match s.workers[i]
    case Outside => Some(s.(workers := s.workers[i := Entering]))
    case Entering => if s.owner.Some? then None else Some(s.(workers := s.workers[i := Testing], owner := Some(i)))
    case Testing =>
      if s.ring.count == 0 then Some(s.(workers := s.workers[i := Asleep], owner := None))
      else Some(s.(workers := s.workers[i := Taking]))
    case Asleep => None
    case Woken(_) => if s.owner.Some? then None else Some(s.(workers := s.workers[i := Testing], owner := Some(i)))
    case Taking =>
      if s.ring.count == 0 then None
      else Some(s.(workers := s.workers[i := Took(s.ring.slots[s.ring.head])], ring := Take(s.ring),
                   log := s.log + [Serve]))
    case Took(_) => Some(s.(workers := s.workers[i := Outside], owner := None))
  }

  function AcceptorStep(s: State, wakes: Option<nat>): (t: Option<State>)
    requires s.ring.Valid()
    ensures t.Some? ==> t.value.ring.Valid()
  {
    match s.acceptor
    case Away => None
    case Locking(job) =>
      if s.owner.Some? then None else Some(s.(acceptor := Putting(job), owner := Some(|s.workers|)))
    case Putting(job) => Some(s.(acceptor := Signalling, ring := Put(s.ring, job), log := s.log + [Accept(job)]))
    case Signalling =>
      (match wakes
       case Some(j) =>
         if j < |s.workers| && s.workers[j] == Asleep then
           Some(s.(acceptor := Unlocking, workers := s.workers[j := Woken(true)]))
         else None
       case None => if SomeoneSleeps(s) then None else Some(s.(acceptor := Unlocking)))
    case Unlocking => Some(s.(acceptor := Away, owner := None))
  }

  function Step(s: State, turn: Turn): (t: Option<State>)
    requires s.ring.Valid()
    ensures t.Some? ==> t.value.ring.Valid()
  {
    match turn
    case Arrival(job) => if s.acceptor.Away? then Some(s.(acceptor := Locking(job))) else None
    case ByWorker(i) => if i < |s.workers| then WorkerStep(s, i) else None
    case ByAcceptor(wakes) => AcceptorStep(s, wakes)
    case Spurious(i) =>
      if i < |s.workers| && s.workers[i] == Asleep then Some(s.(workers := s.workers[i := Woken(false)])) else None
  }

  predicate Initial(s: State) {
    && s.acceptor == Away && s.owner == None && s.ring == Empty() && s.log == []
    && forall i :: 0 <= i < |s.workers| ==> s.workers[i] == Outside
  }

  /** Any run: the state after these turns; None when one of them has to wait. */
  function Play(s: State, turns: seq<Turn>): (t: Option<State>)
    requires s.ring.Valid()
    ensures t.Some? ==> t.value.ring.Valid()
  {
    if turns == [] then Some(s)
    else
      match Play(s, turns[..|turns| - 1])
      case None => None
      case Some(t) => Step(t, turns[|turns| - 1])
  }

  // ------------------------------------------------------------------------------- the invariant

  predicate Inside(w: Worker) {
    w.Testing? || w.Taking? || w.Took?
  }

  ghost predicate Exclusive(s: State) {
    && (forall i :: 0 <= i < |s.workers| ==> (s.owner == Some(i) <==> Inside(s.workers[i])))
    && (s.owner == Some(|s.workers|) <==> s.acceptor.Putting? || s.acceptor.Signalling? || s.acceptor.Unlocking?)
    && (s.owner.Some? ==> s.owner.value <= |s.workers|)
  }

  ghost predicate TakesWhatThereIs(s: State) {
    forall i :: 0 <= i < |s.workers| && s.workers[i].Taking? ==> s.ring.count > 0
  }

  /** The number of workers a signal has woken that do not have the mutex yet. */
  function Signalled(ws: seq<Worker>): nat {
    if ws == [] then 0 else (if ws[0] == Woken(true) then 1 else 0) + Signalled(ws[1..])
  }

  /** The jobs that are being seen to: by the worker inside, or by the signal about to be given. */
  function InHand(s: State): nat {
    (if s.owner.Some? && s.owner.value < |s.workers| &&
        (s.workers[s.owner.value].Testing? || s.workers[s.owner.value].Taking?) then 1 else 0)
    + (if s.acceptor.Signalling? then 1 else 0)
  }

  /** No wakeup is lost: while someone sleeps, every job has a woken worker on its way or is in hand. */
  ghost predicate NoneLost(s: State) {
    SomeoneSleeps(s) ==> s.ring.count <= Signalled(s.workers) + InHand(s)
  }

  ghost predicate Inv(s: State) {
    Exclusive(s) && TakesWhatThereIs(s) && NoneLost(s)
  }

  lemma {:induction false} SignalledUpdate(ws: seq<Worker>, i: nat, w: Worker)
    requires i < |ws|
    ensures Signalled(ws[i := w])
         == Signalled(ws) - (if ws[i] == Woken(true) then 1 else 0) + (if w == Woken(true) then 1 else 0)
  {
    var vs := ws[i := w];
    if i == 0 {
      assert vs[1..] == ws[1..];
    } else {
      assert vs[1..] == ws[1..][i - 1 := w];
      SignalledUpdate(ws[1..], i - 1, w);
    }
  }

  lemma WorkerKeepsExclusive(s: State, i: nat, t: State)
    requires Exclusive(s) && i < |s.workers| && s.ring.Valid() && WorkerStep(s, i) == Some(t)
    ensures Exclusive(t)
  {
  }

  lemma WorkerKeepsTaking(s: State, i: nat, t: State)
    requires Exclusive(s) && TakesWhatThereIs(s) && i < |s.workers| && s.ring.Valid() && WorkerStep(s, i) == Some(t)
    ensures TakesWhatThereIs(t)
  {
  }

  lemma WorkerKeepsJobs(s: State, i: nat, t: State)
    requires Exclusive(s) && NoneLost(s) && i < |s.workers| && s.ring.Valid() && WorkerStep(s, i) == Some(t)
    ensures NoneLost(t)
  {
    SignalledUpdate(s.workers, i, t.workers[i]);
    if SomeoneSleeps(t) && !s.workers[i].Testing? {
      var j :| 0 <= j < |t.workers| && t.workers[j] == Asleep;
      assert s.workers[j] == Asleep;
    }
    hide Signalled;
  }

  lemma WorkerKeepsInv(s: State, i: nat, t: State)
    requires Inv(s) && i < |s.workers| && s.ring.Valid() && WorkerStep(s, i) == Some(t)
    ensures Inv(t)
  {
    WorkerKeepsExclusive(s, i, t);
    WorkerKeepsTaking(s, i, t);
    WorkerKeepsJobs(s, i, t);
    hide Exclusive, TakesWhatThereIs, NoneLost, WorkerStep;
  }

  lemma AcceptorKeepsInv(s: State, wakes: Option<nat>, t: State)
    requires Inv(s) && s.ring.Valid() && AcceptorStep(s, wakes) == Some(t)
    ensures Inv(t)
  {
    if s.acceptor.Signalling? && wakes.Some? {
      SignalledUpdate(s.workers, wakes.value, Woken(true));
    }
    if SomeoneSleeps(t) {
      var j :| 0 <= j < |t.workers| && t.workers[j] == Asleep;
      assert s.workers[j] == Asleep;
    }
    hide Signalled;
  }

  lemma ArrivalKeepsInv(s: State, job: int, t: State)
    requires Inv(s) && s.ring.Valid() && Step(s, Arrival(job)) == Some(t)
    ensures Inv(t)
  {
  }

  lemma SpuriousKeepsInv(s: State, i: nat, t: State)
    requires Inv(s) && s.ring.Valid() && Step(s, Spurious(i)) == Some(t)
    ensures Inv(t)
  {
    SignalledUpdate(s.workers, i, Woken(false));
    if SomeoneSleeps(t) {
      var j :| 0 <= j < |t.workers| && t.workers[j] == Asleep;
      assert s.workers[j] == Asleep;
    }
    hide Signalled;
  }

  /** Every state of every run keeps the invariant. */
  lemma {:induction false} PlayKeepsInv(s: State, turns: seq<Turn>, t: State)
    requires Initial(s) && Play(s, turns) == Some(t)
    ensures Inv(t)
    decreases |turns|
  {
    if turns != [] {
      var u := Play(s, turns[..|turns| - 1]).value;
      PlayKeepsInv(s, turns[..|turns| - 1], u);
      hide Inv, Initial;
      match turns[|turns| - 1]
      case Arrival(job) => ArrivalKeepsInv(u, job, t);
      case ByWorker(i) => WorkerKeepsInv(u, i, t);
      case ByAcceptor(wakes) => AcceptorKeepsInv(u, wakes, t);
      case Spurious(i) => SpuriousKeepsInv(u, i, t);
    }
  }

  // -------------------------------------------------------------------------------- what it means

  /** Whenever some worker sleeps unsignalled and the mutex is free, there are no more jobs than
      signalled workers about to take the mutex; so no job waits while all workers sleep. */
  lemma NoLostWakeup(s: State, turns: seq<Turn>, t: State)
    requires Initial(s) && Play(s, turns) == Some(t) && SomeoneSleeps(t)
    ensures t.owner.None? ==> t.ring.count <= Signalled(t.workers)
    ensures t.owner.None? && (forall i :: 0 <= i < |t.workers| ==> t.workers[i] == Asleep) ==> t.ring.count == 0
  {
    PlayKeepsInv(s, turns, t);
    if forall i :: 0 <= i < |t.workers| ==> t.workers[i] == Asleep {
      NoneSignalled(t.workers);
    }
  }

  lemma {:induction false} NoneSignalled(ws: seq<Worker>)
    requires forall i :: 0 <= i < |ws| ==> ws[i] != Woken(true)
    ensures Signalled(ws) == 0
  {
    if ws != [] {
      NoneSignalled(ws[1..]);
    }
  }

  /** A worker takes a job only when there is one, alone in the queue. */
  lemma TakingIsSafe(s: State, turns: seq<Turn>, t: State, i: nat)
    requires Initial(s) && Play(s, turns) == Some(t) && i < |t.workers| && t.workers[i].Taking?
    ensures t.ring.count > 0 && t.owner == Some(i) && WorkerStep(t, i).Some?
    ensures !t.acceptor.Putting? && !t.acceptor.Signalling?
    ensures forall k :: 0 <= k < |t.workers| && k != i ==> !Inside(t.workers[k])
  {
    PlayKeepsInv(s, turns, t);
  }

  /** The log is a run of the ring, and a worker inside with a job has the one served last. */
  ghost predicate Logged(s: State) {
    var run := Run(s.log);
    && run.Some? && run.value.ring == s.ring
    && forall i :: 0 <= i < |s.workers| && s.workers[i].Took? ==>
         run.value.served != [] && s.workers[i].job == run.value.served[|run.value.served| - 1]
  }

  lemma WorkerIsLogged(s: State, i: nat, t: State)
    requires Logged(s) && Inv(s) && i < |s.workers| && s.ring.Valid() && WorkerStep(s, i) == Some(t)
    ensures Logged(t)
  {
    hide Put, Take, Run, NoneLost;
    if s.workers[i].Taking? {
      RunSnoc(s.log, Run(s.log).value, Serve);
    }
  }

  lemma AcceptorIsLogged(s: State, wakes: Option<nat>, t: State)
    requires Logged(s) && s.ring.Valid() && AcceptorStep(s, wakes) == Some(t)
    ensures Logged(t)
  {
    hide Put, Take, Run;
    if s.acceptor.Putting? {
      RunSnoc(s.log, Run(s.log).value, Accept(s.acceptor.job));
    }
  }

  lemma {:induction false} PlayIsLogged(s: State, turns: seq<Turn>, t: State)
    requires Initial(s) && Play(s, turns) == Some(t)
    ensures Logged(t)
    decreases |turns|
  {
    if turns != [] {
      var u := Play(s, turns[..|turns| - 1]).value;
      PlayIsLogged(s, turns[..|turns| - 1], u);
      PlayKeepsInv(s, turns[..|turns| - 1], u);
      hide Inv, Initial, Run;
      match turns[|turns| - 1]
      case ByWorker(i) => WorkerIsLogged(u, i, t);
      case ByAcceptor(wakes) => AcceptorIsLogged(u, wakes, t);
      case _ =>
    }
  }

  /** What the ring promises holds however the threads interleave: what was put and taken is a run of it,
      each worker leaves with the job taken last, jobs are taken in the order in which they were put if
      and, while waiting connections have different numbers, only if each is taken with at most a hundred
      waiting; and then none is lost. */
  lemma InterleavedInOrder(s: State, turns: seq<Turn>, t: State) returns (run: Trace)
    requires Initial(s) && Play(s, turns) == Some(t)
    ensures Run(t.log) == Some(run) && run.ring == t.ring
    ensures forall i :: 0 <= i < |t.workers| && t.workers[i].Took? ==>
              run.served != [] && t.workers[i].job == run.served[|run.served| - 1]
    ensures |run.served| <= |run.accepted|
    ensures run.kept ==> run.served == run.accepted[..|run.served|]
    ensures run.apart ==> (run.served == run.accepted[..|run.served|] <==> run.kept)
    ensures run.kept && t.ring.count <= 100 ==> run.served + Waiting(t.ring) == run.accepted
  {
    hide Run, Play, Waiting;
    PlayIsLogged(s, turns, t);
    run := Run(t.log).value;
    ServedInOrder(t.log, run);
    if run.kept && t.ring.count <= MAX_QUEUE {
      NothingLost(t.log, run);
    }
  }

  lemma Go(s: State, turns: seq<Turn>, t: State, turn: Turn) returns (longer: seq<Turn>, u: State)
    requires s.ring.Valid() && Play(s, turns) == Some(t) && Step(t, turn).Some?
    ensures longer == turns + [turn] && Play(s, longer) == Some(u) && Step(t, turn) == Some(u)
  {
    longer, u := turns + [turn], Step(t, turn).value;
    assert longer[..|longer| - 1] == turns;
  }

  /** While a job waits and the mutex is free, some worker is awake. */
  lemma SomeoneIsAwake(t: State) returns (k: nat)
    requires Inv(t) && t.ring.count > 0 && t.owner.None? && t.workers != []
    ensures k < |t.workers| && t.workers[k] != Asleep
  {
    if i :| 0 <= i < |t.workers| && t.workers[i] != Asleep {
      k := i;
    } else {
      assert t.workers[0] == Asleep;
      NoneSignalled(t.workers);
      assert false;
    }
  }

  /** An awake worker gets to a waiting job by itself, once the mutex is free. */
  lemma AwakeGetsToJob(s: State, turns: seq<Turn>, t: State, k: nat) returns (longer: seq<Turn>, u: State)
    requires s.ring.Valid() && Play(s, turns) == Some(t) && t.ring.count > 0 && t.owner.None?
    requires k < |t.workers| && (t.workers[k].Outside? || t.workers[k].Entering? || t.workers[k].Woken?)
    ensures turns <= longer && |longer| <= |turns| + 3 && Play(s, longer) == Some(u)
    ensures k < |u.workers| && u.workers[k].Taking?
  {
    hide Play;
    longer, u := turns, t;
    if u.workers[k].Outside? {
      longer, u := Go(s, longer, u, ByWorker(k));
    }
    longer, u := Go(s, longer, u, ByWorker(k));
    longer, u := Go(s, longer, u, ByWorker(k));
  }

  /** The acceptor, once inside, leaves by itself, with no fewer jobs. */
  lemma AcceptorLeaves(s: State, turns: seq<Turn>, t: State) returns (longer: seq<Turn>, u: State)
    requires s.ring.Valid() && Play(s, turns) == Some(t)
    requires t.acceptor.Putting? || t.acceptor.Signalling? || t.acceptor.Unlocking?
    ensures turns <= longer && |longer| <= |turns| + 3 && Play(s, longer) == Some(u)
    ensures u.owner.None? && u.ring.count >= t.ring.count && |u.workers| == |t.workers|
  {
    hide Play;
    longer, u := turns, t;
    if u.acceptor.Putting? {
      longer, u := Go(s, longer, u, ByAcceptor(None));
    }
    if u.acceptor.Signalling? {
      if j :| 0 <= j < |u.workers| && u.workers[j] == Asleep {
        longer, u := Go(s, longer, u, ByAcceptor(Some(j)));
      } else {
        longer, u := Go(s, longer, u, ByAcceptor(None));
      }
    }
    longer, u := Go(s, longer, u, ByAcceptor(None));
  }

  /** No reachable state is stuck with a job: within six turns of those already inside and of one
      worker, without any further arrival or spurious wakeup, a worker is about to take one. */
  lemma JobsCanBeTaken(s: State, turns: seq<Turn>, t: State) returns (longer: seq<Turn>, u: State, k: nat)
    requires Initial(s) && Play(s, turns) == Some(t) && t.workers != [] && t.ring.count > 0
    ensures turns <= longer && |longer| <= |turns| + 6 && Play(s, longer) == Some(u)
    ensures k < |u.workers| && u.workers[k].Taking?
  {
    PlayKeepsInv(s, turns, t);
    hide Play, Initial;
    longer, u := turns, t;
    if t.owner.Some? && t.owner.value < |t.workers| {
      k := t.owner.value;
      assert Inside(t.workers[k]);
      if t.workers[k].Took? {
        longer, u := Go(s, longer, u, ByWorker(k));
        longer, u := AwakeGetsToJob(s, longer, u, k);
      } else if t.workers[k].Testing? {
        longer, u := Go(s, longer, u, ByWorker(k));
      }
    } else {
      if t.owner.Some? {
        longer, u := AcceptorLeaves(s, longer, u);
        PlayKeepsInv(s, longer, u);
      }
      k := SomeoneIsAwake(u);
      assert !Inside(u.workers[k]);
      longer, u := AwakeGetsToJob(s, longer, u, k);
    }
  }

  // ------------------------------------------------------------------------ what the threads get done

  /** A call of dequeue_job returns only with a job: a worker that comes out had taken one. */
  lemma ReturnsWithJob(s: State, turns: seq<Turn>, t: State, turn: Turn, u: State, i: nat)
    requires Initial(s) && Play(s, turns) == Some(t) && Step(t, turn) == Some(u) && i < |t.workers|
    ensures |u.workers| == |t.workers|
    ensures u.workers[i].Outside? ==> t.workers[i].Outside? || t.workers[i].Took?
  {
    hide Play, Initial, Put, Take, SomeoneSleeps;
  }

  /** The jobs that these turns brought. */
  function Arrived(turns: seq<Turn>): seq<int> {
    if turns == [] then []
    else
      var turn := turns[|turns| - 1];
      Arrived(turns[..|turns| - 1]) + if turn.Arrival? then [turn.job] else []
  }

  /** The jobs with which workers came out. */
  function Returned(s: State, turns: seq<Turn>): seq<int>
    requires s.ring.Valid() && Play(s, turns).Some?
  {
    if turns == [] then []
    else
      var (before, turn) := (turns[..|turns| - 1], turns[|turns| - 1]);
      var u := Play(s, before).value;
      Returned(s, before) +
      if turn.ByWorker? && turn.i < |u.workers| && u.workers[turn.i].Took? then [u.workers[turn.i].job] else []
  }

  /** The job that the acceptor has still to put. */
  function Coming(s: State): seq<int> {
    if s.acceptor.Locking? || s.acceptor.Putting? then [s.acceptor.job] else []
  }

  /** The job with which a worker is about to come out. */
  function Going(s: State): seq<int> {
    if s.owner.Some? && s.owner.value < |s.workers| && s.workers[s.owner.value].Took? then
      [s.workers[s.owner.value].job]
    else []
  }

  lemma AcceptorDelivers(s: State, wakes: Option<nat>, t: State, run: Trace, run': Trace)
    requires Exclusive(s) && s.ring.Valid() && AcceptorStep(s, wakes) == Some(t)
    requires Run(s.log) == Some(run) && Run(t.log) == Some(run') && run.ring == s.ring
    ensures run'.accepted + Coming(t) == run.accepted + Coming(s)
    ensures run'.served == run.served && Going(s) == Going(t) == []
  {
    hide Put, Take, Run;
    if s.acceptor.Putting? {
      RunSnoc(s.log, run, Accept(s.acceptor.job));
    }
  }

  lemma WorkerDelivers(s: State, i: nat, t: State, run: Trace, run': Trace)
    requires Exclusive(s) && TakesWhatThereIs(s) && s.ring.Valid() && i < |s.workers| && WorkerStep(s, i) == Some(t)
    requires Run(s.log) == Some(run) && Run(t.log) == Some(run') && run.ring == s.ring
    ensures run'.accepted == run.accepted && Coming(t) == Coming(s)
    ensures s.workers[i].Took? ==> Going(s) == [s.workers[i].job] && Going(t) == [] && run'.served == run.served
    ensures s.workers[i].Taking? ==> Going(s) == [] && run'.served == run.served + Going(t)
    ensures !s.workers[i].Took? && !s.workers[i].Taking? ==> Going(t) == Going(s) && run'.served == run.served
  {
    hide Put, Take, Run;
    if s.workers[i].Taking? {
      RunSnoc(s.log, run, Serve);
    }
  }

  lemma WakingDelivers(s: State, i: nat, t: State)
    requires s.ring.Valid() && Step(s, Spurious(i)) == Some(t)
    ensures t.log == s.log && Coming(t) == Coming(s) && Going(t) == Going(s)
  {
  }

  /** Every job that arrived is put, in the order of arrival, and every job served is what some worker came
      out with, in the order of serving; but for the one on its way in and the one on its way out. */
  lemma {:induction false} EveryJobPasses(s: State, turns: seq<Turn>, t: State)
    requires Initial(s) && Play(s, turns) == Some(t)
    ensures Run(t.log).Some?
    ensures Run(t.log).value.accepted + Coming(t) == Arrived(turns)
    ensures Run(t.log).value.served == Returned(s, turns) + Going(t)
    decreases |turns|
  {
    PlayIsLogged(s, turns, t);
    if turns != [] {
      var before, turn := turns[..|turns| - 1], turns[|turns| - 1];
      var u := Play(s, before).value;
      EveryJobPasses(s, before, u);
      PlayIsLogged(s, before, u);
      PlayKeepsInv(s, before, u);
      hide Inv, Initial, Run, Play, NoneLost, Exclusive, WorkerStep, AcceptorStep, Coming, Going, Put, Take;
      var run, run' := Run(u.log).value, Run(t.log).value;
      match turn
      case Arrival(job) => ArrivalComes(u, job, t);
      case ByWorker(i) =>
        InvSplits(u);
        WorkerDelivers(u, i, t, run, run');
      case ByAcceptor(wakes) =>
        InvSplits(u);
        AcceptorDelivers(u, wakes, t, run, run');
      case Spurious(i) => WakingDelivers(u, i, t);
    }
  }

  lemma InvSplits(s: State)
    requires Inv(s)
    ensures Exclusive(s) && TakesWhatThereIs(s)
  {
  }

  lemma ArrivalComes(s: State, job: int, t: State)
    requires s.ring.Valid() && Step(s, Arrival(job)) == Some(t)
    ensures t.log == s.log && Coming(s) == [] && Coming(t) == [job] && Going(t) == Going(s)
  {
  }

  // ----------------------------------------------------------------------------- idle workers sleep

  /** How many workers are not asleep. */
  function Awake(ws: seq<Worker>): nat {
    if ws == [] then 0 else (if ws[0] == Asleep then 0 else 1) + Awake(ws[1..])
  }

  lemma {:induction false} AwakeUpdate(ws: seq<Worker>, i: nat, w: Worker)
    requires i < |ws|
    ensures Awake(ws[i := w]) == Awake(ws) - (if ws[i] == Asleep then 0 else 1) + (if w == Asleep then 0 else 1)
  {
    var vs := ws[i := w];
    if i == 0 {
      assert vs[1..] == ws[1..];
    } else {
      assert vs[1..] == ws[1..][i - 1 := w];
      AwakeUpdate(ws[1..], i - 1, w);
    }
  }

  lemma {:induction false} NobodyAwake(ws: seq<Worker>)
    ensures Awake(ws) == 0 <==> forall i :: 0 <= i < |ws| ==> ws[i] == Asleep
  {
    if ws != [] {
      NobodyAwake(ws[1..]);
      assert (forall i :: 0 <= i < |ws[1..]| ==> ws[1..][i] == Asleep) <==>
             (forall i :: 1 <= i < |ws| ==> ws[i] == Asleep) by {
        forall i | 1 <= i < |ws| ensures ws[i] == ws[1..][i - 1] {
        }
      }
    }
  }

  /** With no job and nobody inside, a worker that is awake goes to sleep by itself. */
  lemma GoesToSleep(s: State, turns: seq<Turn>, t: State, k: nat) returns (longer: seq<Turn>, u: State)
    requires s.ring.Valid() && Play(s, turns) == Some(t) && t.ring.count == 0 && t.owner.None?
    requires k < |t.workers| && (t.workers[k].Outside? || t.workers[k].Entering? || t.workers[k].Woken?)
    ensures turns <= longer && Play(s, longer) == Some(u)
    ensures u == t.(workers := t.workers[k := Asleep])
  {
    hide Play;
    longer, u := turns, t;
    if u.workers[k].Outside? {
      longer, u := Go(s, longer, u, ByWorker(k));
    }
    longer, u := Go(s, longer, u, ByWorker(k));
    longer, u := Go(s, longer, u, ByWorker(k));
  }

  lemma {:induction false} AllGoToSleep(s: State, turns: seq<Turn>, t: State) returns (longer: seq<Turn>, u: State)
    requires Initial(s) && Play(s, turns) == Some(t) && t.ring.count == 0 && t.owner.None?
    ensures turns <= longer && Play(s, longer) == Some(u)
    ensures |u.workers| == |t.workers| && forall i :: 0 <= i < |u.workers| ==> u.workers[i] == Asleep
    ensures u.ring == t.ring && u.log == t.log && u.acceptor == t.acceptor
    decreases Awake(t.workers)
  {
    longer, u := turns, t;
    NobodyAwake(t.workers);
    if Awake(t.workers) > 0 {
      var k :| 0 <= k < |t.workers| && t.workers[k] != Asleep;
      PlayKeepsInv(s, turns, t);
      assert !Inside(t.workers[k]);
      hide Play, Initial, Inv, Awake;
      longer, u := GoesToSleep(s, turns, t, k);
      AwakeUpdate(t.workers, k, Asleep);
      longer, u := AllGoToSleep(s, longer, u);
    }
  }

  /** From every reachable state without a job and without one arriving, the workers go to sleep by
      themselves, all of them. */
  lemma IdleWorkersSleep(s: State, turns: seq<Turn>, t: State) returns (longer: seq<Turn>, u: State)
    requires Initial(s) && Play(s, turns) == Some(t) && t.ring.count == 0 && t.acceptor.Away?
    ensures turns <= longer && Play(s, longer) == Some(u)
    ensures |u.workers| == |t.workers| && forall i :: 0 <= i < |u.workers| ==> u.workers[i] == Asleep
    ensures u.ring == t.ring && u.log == t.log && u.acceptor.Away?
  {
    longer, u := turns, t;
    PlayKeepsInv(s, turns, t);
    if t.owner.Some? {
      var k := t.owner.value;
      assert k < |t.workers| && Inside(t.workers[k]) && !t.workers[k].Taking?;
      hide Play, Initial, Inv;
      longer, u := Go(s, longer, u, ByWorker(k));
    }
    hide Play, Initial, Inv;
    longer, u := AllGoToSleep(s, longer, u);
  }

  /** What can happen next: a worker waits exactly for the mutex or, asleep, for a wakeup, which may come at
      any time; the acceptor for a connection or for the mutex, and its signal wakes one of those asleep, any
      of them, and nobody only if nobody sleeps. */
  lemma TurnsExact(s: State, turns: seq<Turn>, t: State, i: nat, job: int)
    requires Initial(s) && Play(s, turns) == Some(t) && i < |t.workers|
    ensures Step(t, ByWorker(i)).Some? <==>
            t.workers[i] != Asleep && (t.workers[i].Entering? || t.workers[i].Woken? ==> t.owner.None?)
    ensures Step(t, Spurious(i)).Some? <==> t.workers[i] == Asleep
    ensures Step(t, Arrival(job)).Some? <==> t.acceptor.Away?
    ensures Step(t, ByAcceptor(Some(i))).Some? <==>
            && !t.acceptor.Away? && (t.acceptor.Locking? ==> t.owner.None?)
            && (t.acceptor.Signalling? ==> t.workers[i] == Asleep)
    ensures Step(t, ByAcceptor(None)).Some? <==>
            && !t.acceptor.Away? && (t.acceptor.Locking? ==> t.owner.None?)
            && (t.acceptor.Signalling? ==> forall k :: 0 <= k < |t.workers| ==> t.workers[k] != Asleep)
  {
    PlayKeepsInv(s, turns, t);
    hide Play, Initial, Put, Take;
  }
}
