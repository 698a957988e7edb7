/** inotify_watch.c: the event loop that waits 300 ms after the last save before it runs the client. */
module Debounce {
  import opened Options

  const DEBOUNCE_MS := 300

  datatype Fd = Ifd | Tfd

  /** What the loop has done: changes read, and runs of the client started. A run is `stale` if a
      change was read after its expiry was already in the batch of events. */
  datatype Event = Read(at: nat) | Started(at: nat, stale: bool)

  /** The loop and the kernel: the time, the deadline of the armed timer, an expiry not yet read,
      the changes not yet read, and the events epoll_wait returned that are still to be handled. */
  datatype Watch = Watch(now: nat, timer: Option<nat>, expired: bool, queued: nat,
                         batch: seq<Fd>, readInBatch: bool, log: seq<Event>)

  const START := Watch(0, None, false, 0, [], false, [])

  // ----------------------------------------------------------------------------------- the steps

  /** Time passes and files change. */
  function Elapse(s: Watch, ms: nat, changes: nat): Watch {
    var t := s.(now := s.now + ms, queued := s.queued + changes);
    if t.timer.Some? && t.timer.value <= t.now then t.(timer := None, expired := true) else t
  }

  /** arm_debounce: setting the timer anew also takes back an expiry not yet read. */
  function Arm(s: Watch): Watch {
    s.(timer := Some(s.now + DEBOUNCE_MS), expired := false)
  }

  /** epoll_wait returns every ready descriptor, in any order. */
  predicate IsBatch(s: Watch, order: seq<Fd>) {
    order == (if s.queued > 0 then [Ifd] else []) + (if s.expired then [Tfd] else []) ||
    order == (if s.expired then [Tfd] else []) + (if s.queued > 0 then [Ifd] else [])
  }

  /** The next event of the batch; `taken` changes fit into the buffer, none if the read fails, as it
      does when there are none. */
  function Handle(s: Watch, taken: nat): Watch
    requires s.batch != []
  {
    var t := s.(batch := s.batch[1..]);
    match s.batch[0]
    case Ifd =>
      if taken == 0 || s.queued == 0 then t
      else
        Arm(t.(queued := if taken < s.queued then s.queued - taken else 0,
               readInBatch := true, log := s.log + [Read(s.now)]))
    case Tfd => t.(expired := false, log := s.log + [Started(s.now, s.readInBatch)])
  }

  /** What happens next: time passes, epoll_wait returns (with nothing when interrupted), the next
      event is handled. */
  datatype Turn = Lapse(ms: nat, changes: nat) | Return(order: seq<Fd>) | Interrupted | Next(taken: nat)

  function Step(s: Watch, turn: Turn): Option<Watch> {
    match turn
    case Lapse(ms, changes) => Some(Elapse(s, ms, changes))
    case Return(order) =>
      if s.batch == [] && IsBatch(s, order) then Some(s.(batch := order, readInBatch := false)) else None
    case Interrupted => if s.batch == [] then Some(s) else None
    case Next(taken) => if s.batch == [] then None else Some(Handle(s, taken))
  }

  function Play(turns: seq<Turn>): Option<Watch> {
    if turns == [] then Some(START)
    else
      match Play(turns[..|turns| - 1])
      case None => None
      case Some(s) => Step(s, turns[|turns| - 1])
  }

  // ------------------------------------------------------------------------- the loop in memory

  /** What the handling of a batch meets, event by event: the time that passes before it, the
      changes made meanwhile, and how many of them are read. */
  datatype Gap = Gap(ms: nat, changes: nat, taken: nat)

  function HandleAll(s: Watch, gaps: seq<Gap>): Watch
    requires |gaps| == |s.batch|
    decreases |gaps|
  {
    if gaps == [] then s else HandleAll(Handle(Elapse(s, gaps[0].ms, gaps[0].changes), gaps[0].taken), gaps[1..])
  }

  class Watcher {
    var now: nat
    var timer: Option<nat>
    var expired: bool
    var queued: nat
    ghost var readInBatch: bool
    ghost var log: seq<Event>

    ghost function Contents(batch: seq<Fd>): Watch
      reads this
    {
      Watch(now, timer, expired, queued, batch, readInBatch, log)
    }

    constructor ()
      ensures Contents([]) == START
    {
      now, timer, expired, queued, readInBatch, log := 0, None, false, 0, false, [];
    }

    method Pass(ms: nat, changes: nat, ghost batch: seq<Fd>)
      modifies this
      ensures Contents(batch) == Elapse(old(Contents(batch)), ms, changes)
    {
      now, queued := now + ms, queued + changes;
      if timer.Some? && timer.value <= now {
        timer, expired := None, true;
      }
    }

    method ArmDebounce(ghost batch: seq<Fd>)
      modifies this
      ensures Contents(batch) == Arm(old(Contents(batch)))
    {
      timer, expired := Some(now + DEBOUNCE_MS), false;
    }

    method HandleEvent(fd: Fd, taken: nat, ghost rest: seq<Fd>)
      modifies this
      ensures Contents(rest) == Handle(old(Contents([fd] + rest)), taken)
    {
      if fd == Ifd && taken > 0 && queued > 0 {
        queued := if taken < queued then queued - taken else 0;
        readInBatch, log := true, log + [Read(now)];
        ArmDebounce(rest);
      }
      if fd == Tfd {
        expired := false;
        log := log + [Started(now, readInBatch)];
      }
    }

    /** The body of the event loop, once epoll_wait has returned. */
    method HandleBatch(events: seq<Fd>, gaps: seq<Gap>)
      requires |gaps| == |events|
      modifies this
      ensures Contents([]) == HandleAll(old(Contents(events)).(readInBatch := false), gaps)
    {
      readInBatch := false;
      ghost var start := Contents(events);
      var i := 0;
      assert events[0..] == events && gaps[0..] == gaps;
      while i < |events|
        invariant 0 <= i <= |events|
        invariant HandleAll(Contents(events[i..]), gaps[i..]) == HandleAll(start, gaps)
      {
        assert events[i..] == [events[i]] + events[i + 1..] && gaps[i..][1..] == gaps[i + 1..];
        Pass(gaps[i].ms, gaps[i].changes, events[i..]);
        HandleEvent(events[i], gaps[i].taken, events[i + 1..]);
        i := i + 1;
        hide Handle, Elapse;
      }
    }
  }

  // ------------------------------------------------------------------------------- the invariant

  function Reads(log: seq<Event>): nat {
    if log == [] then 0 else Reads(log[..|log| - 1]) + if log[|log| - 1].Read? then 1 else 0
  }

  function Runs(log: seq<Event>): nat {
    if log == [] then 0 else Runs(log[..|log| - 1]) + if log[|log| - 1].Started? then 1 else 0
  }

  /** A change was read and no run started since. */
  predicate Unserved(log: seq<Event>) {
    log != [] && log[|log| - 1].Read?
  }

  /** Every change read so far was read 300 ms before time t, or earlier. */
  ghost predicate QuietBefore(log: seq<Event>, t: nat) {
    forall k :: 0 <= k < |log| && log[k].Read? ==> log[k].at + DEBOUNCE_MS <= t
  }

  /** A run that is not stale starts 300 ms after every change read before it. */
  ghost predicate RunsQuiet(log: seq<Event>) {
    forall k :: 0 <= k < |log| && log[k].Started? && !log[k].stale ==> QuietBefore(log[..k], log[k].at)
  }

  ghost predicate InOrder(log: seq<Event>, now: nat) {
    && (forall k :: 0 <= k < |log| ==> log[k].at <= now)
    && (forall i, k :: 0 <= i < k < |log| ==> log[i].at <= log[k].at)
  }

  /** While a change is unserved the timer runs or has expired. The timer runs until 300 ms after the
      last change read; so do an expiry and, unless a change was read since, one in the batch. */
  ghost predicate TimerSound(s: Watch) {
    && (Unserved(s.log) ==> s.timer.Some? || s.expired)
    && (Unserved(s.log) && s.timer.Some? ==> s.timer.value == s.log[|s.log| - 1].at + DEBOUNCE_MS)
    && (s.timer.Some? ==> !s.expired && s.now < s.timer.value && QuietBefore(s.log, s.timer.value))
    && (s.expired ==> QuietBefore(s.log, s.now))
    && (Tfd in s.batch && !s.readInBatch ==> QuietBefore(s.log, s.now))
  }

  predicate BatchSound(batch: seq<Fd>) {
    batch == [] || batch == [Ifd] || batch == [Tfd] || batch == [Ifd, Tfd] || batch == [Tfd, Ifd]
  }

  /** The runs that are still to come. */
  function Due(s: Watch): nat {
    (if Tfd in s.batch then 1 else 0) + (if s.timer.Some? then 1 else 0)
    + (if s.expired && Tfd !in s.batch then 1 else 0)
  }

  ghost predicate Inv(s: Watch) {
    && InOrder(s.log, s.now) && RunsQuiet(s.log) && TimerSound(s) && BatchSound(s.batch)
    && Runs(s.log) + Due(s) <= Reads(s.log)
  }

  lemma ElapseKeepsInv(s: Watch, ms: nat, changes: nat)
    requires Inv(s)
    ensures Inv(Elapse(s, ms, changes))
  {
    hide Runs, Reads, RunsQuiet;
  }

  lemma ReturnKeepsInv(s: Watch, order: seq<Fd>)
    requires Inv(s) && s.batch == [] && IsBatch(s, order)
    ensures Inv(s.(batch := order, readInBatch := false))
  {
    hide Runs, Reads, RunsQuiet, InOrder, QuietBefore;
  }

  /** One more event keeps the runs quiet, if it is a read, or a quiet run, or a stale one. */
  lemma OneMoreEvent(log: seq<Event>, e: Event)
    requires RunsQuiet(log)
    requires e.Started? && !e.stale ==> QuietBefore(log, e.at)
    ensures RunsQuiet(log + [e])
    ensures Runs(log + [e]) == Runs(log) + (if e.Started? then 1 else 0)
    ensures Reads(log + [e]) == Reads(log) + (if e.Read? then 1 else 0)
  {
    var more := log + [e];
    assert more[..|more| - 1] == log;
    forall k | 0 <= k < |more| && more[k].Started? && !more[k].stale ensures QuietBefore(more[..k], more[k].at) {
      assert more[..k] == log[..k];
    }
  }

  lemma ReadKeepsInv(s: Watch, rest: seq<Fd>, queued: nat)
    requires Inv(s) && s.batch == [Ifd] + rest
    ensures Inv(Arm(s.(batch := rest, queued := queued, readInBatch := true, log := s.log + [Read(s.now)])))
  {
    OneMoreEvent(s.log, Read(s.now));
    BatchTail(s.batch);
    assert rest == s.batch[1..];
    hide Runs, Reads, RunsQuiet, BatchSound;
    assert QuietBefore(s.log + [Read(s.now)], s.now + DEBOUNCE_MS);
    hide QuietBefore;
  }

  lemma RunKeepsInv(s: Watch, rest: seq<Fd>)
    requires Inv(s) && s.batch == [Tfd] + rest
    ensures Inv(s.(batch := rest, expired := false, log := s.log + [Started(s.now, s.readInBatch)]))
  {
    OneMoreEvent(s.log, Started(s.now, s.readInBatch));
    BatchTail(s.batch);
    assert rest == s.batch[1..];
    var log := s.log + [Started(s.now, s.readInBatch)];
    assert forall t :: QuietBefore(s.log, t) ==> QuietBefore(log, t);
    assert InOrder(log, s.now);
    hide Runs, Reads, RunsQuiet, BatchSound, QuietBefore, InOrder;
  }

  /** A batch holds each descriptor at most once. */
  lemma BatchTail(batch: seq<Fd>)
    requires BatchSound(batch) && batch != []
    ensures BatchSound(batch[1..]) && batch[0] !in batch[1..]
    ensures batch[0] == Ifd ==> (Tfd in batch <==> Tfd in batch[1..])
  {
  }

  lemma SkipKeepsInv(s: Watch, rest: seq<Fd>)
    requires Inv(s) && s.batch == [Ifd] + rest
    ensures Inv(s.(batch := rest))
  {
    BatchTail(s.batch);
    assert rest == s.batch[1..];
    hide Runs, Reads, RunsQuiet, BatchSound, InOrder, QuietBefore;
  }

  lemma HandleKeepsInv(s: Watch, taken: nat)
    requires Inv(s) && s.batch != []
    ensures Inv(Handle(s, taken))
  {
    hide Inv;
    assert s.batch == [s.batch[0]] + s.batch[1..];
    if s.batch[0] == Tfd {
      RunKeepsInv(s, s.batch[1..]);
    } else if taken > 0 && s.queued > 0 {
      ReadKeepsInv(s, s.batch[1..], if taken < s.queued then s.queued - taken else 0);
    } else {
      SkipKeepsInv(s, s.batch[1..]);
    }
  }

  /** Every state of every run keeps the invariant. */
  lemma {:induction false} PlayKeepsInv(turns: seq<Turn>, s: Watch)
    requires Play(turns) == Some(s)
    ensures Inv(s)
    decreases |turns|
  {
    if turns != [] {
      var u := Play(turns[..|turns| - 1]).value;
      PlayKeepsInv(turns[..|turns| - 1], u);
      hide Inv, Elapse, Handle, IsBatch;
      match turns[|turns| - 1]
      case Lapse(ms, changes) => ElapseKeepsInv(u, ms, changes);
      case Return(order) => ReturnKeepsInv(u, order);
      case Interrupted =>
      case Next(taken) => HandleKeepsInv(u, taken);
    }
  }

  // -------------------------------------------------------------------------------- what it means

  /** No change is forgotten: while the last change read has no run after it, the timer runs or has
      an expiry to be read. */
  lemma ChangesArePending(turns: seq<Turn>, s: Watch)
    requires Play(turns) == Some(s) && Unserved(s.log)
    ensures s.timer.Some? || s.expired
    ensures s.timer.Some? ==> s.timer.value == s.log[|s.log| - 1].at + 300 > s.now
  {
    PlayKeepsInv(turns, s);
  }

  /** Handling a batch runs the client once if the expiry is in it, and not otherwise. */
  lemma {:induction false} BatchRuns(s: Watch, gaps: seq<Gap>)
    requires |gaps| == |s.batch| && BatchSound(s.batch)
    ensures Runs(HandleAll(s, gaps).log) == Runs(s.log) + if Tfd in s.batch then 1 else 0
    decreases |gaps|
  {
    hide Runs, Arm;
    if gaps != [] {
      var t := Elapse(s, gaps[0].ms, gaps[0].changes);
      BatchTail(s.batch);
      hide BatchSound;
      HandleShortens(s, gaps[0].ms, gaps[0].changes, gaps[0].taken);
      EventRuns(t, gaps[0].taken);
      hide Elapse, Handle;
      BatchRuns(Handle(t, gaps[0].taken), gaps[1..]);
    }
  }

  lemma HandleShortens(s: Watch, ms: nat, changes: nat, taken: nat)
    requires s.batch != []
    ensures Elapse(s, ms, changes).batch == s.batch && Elapse(s, ms, changes).log == s.log
    ensures Handle(Elapse(s, ms, changes), taken).batch == s.batch[1..]
  {
  }

  lemma EventRuns(s: Watch, taken: nat)
    requires s.batch != []
    ensures Runs(Handle(s, taken).log) == Runs(s.log) + if s.batch[0] == Tfd then 1 else 0
  {
    var t := Handle(s, taken);
    if t.log != s.log {
      assert t.log[..|t.log| - 1] == s.log;
    }
  }

  /** When 300 ms have passed since the last change read, the next batch of events has an expiry, and
      handling it runs the client. */
  lemma PendingChangesAreServed(turns: seq<Turn>, s: Watch, order: seq<Fd>, gaps: seq<Gap>)
    requires Play(turns) == Some(s) && Unserved(s.log) && s.batch == [] && IsBatch(s, order)
    requires s.log[|s.log| - 1].at + 300 <= s.now && |gaps| == |order|
    ensures Runs(HandleAll(s.(batch := order, readInBatch := false), gaps).log) == Runs(s.log) + 1
  {
    ChangesArePending(turns, s);
    hide Play, HandleAll, Runs;
    BatchRuns(s.(batch := order, readInBatch := false), gaps);
  }

  /** What the loop makes of a batch is part of a run. */
  lemma {:induction false} HandleAllIsPlayed(turns: seq<Turn>, s: Watch, gaps: seq<Gap>) returns (longer: seq<Turn>)
    requires Play(turns) == Some(s) && |gaps| == |s.batch|
    ensures Play(longer) == Some(HandleAll(s, gaps))
    decreases |gaps|
  {
    hide Play;
    longer := turns;
    if gaps != [] {
      var t;
      longer, t := Go(turns, s, Lapse(gaps[0].ms, gaps[0].changes));
      longer, t := Go(longer, t, Next(gaps[0].taken));
      longer := HandleAllIsPlayed(longer, t, gaps[1..]);
    }
  }

  lemma QuietRun(log: seq<Event>, i: nat, k: nat)
    requires RunsQuiet(log) && i < k < |log|
    requires log[i].Read? && log[k].Started? && !log[k].stale
    ensures log[i].at + DEBOUNCE_MS <= log[k].at
  {
    assert log[..k][i] == log[i];
  }

  /** Of two changes read less than 300 ms apart, no run starts in between, unless its expiry was
      already in the batch when the first was read. */
  lemma NoRunBetweenCloseReads(turns: seq<Turn>, s: Watch, i: nat, k: nat, j: nat)
    requires Play(turns) == Some(s) && i < k < j < |s.log|
    requires s.log[i].Read? && s.log[k].Started? && s.log[j].Read?
    requires s.log[j].at < s.log[i].at + 300
    ensures s.log[k].stale
  {
    PlayKeepsInv(turns, s);
    hide Play, TimerSound, BatchSound, Runs, Reads;
    assert s.log[k].at <= s.log[j].at;
    if !s.log[k].stale {
      QuietRun(s.log, i, k);
    }
  }

  /** There are never more runs than changes read. */
  lemma NoMoreRunsThanReads(turns: seq<Turn>, s: Watch)
    requires Play(turns) == Some(s)
    ensures Runs(s.log) <= Reads(s.log)
  {
    PlayKeepsInv(turns, s);
  }

  // ------------------------------------------------------------------------- from change to run

  /** Whenever changes are taken from the queue, however many, that is a read, and the timer is set to 300 ms
      from then; and there is no read without a change. */
  lemma TakenIsRead(turns: seq<Turn>, s: Watch, turn: Turn, t: Watch)
    requires Play(turns) == Some(s) && Step(s, turn) == Some(t)
    ensures t.queued < s.queued ==>
              t.log == s.log + [Read(t.now)] && Unserved(t.log) && t.timer == Some(t.now + 300) && !t.expired
    ensures t.queued >= s.queued ==> Reads(t.log) == Reads(s.log)
  {
    hide Play, IsBatch;
    if t.log != s.log {
      assert t.log[..|t.log| - 1] == s.log;
    }
  }

  /** When the changes of a run were made, at the latest. */
  function Made(turns: seq<Turn>): seq<nat>
    requires Play(turns).Some?
  {
    if turns == [] then []
    else
      var (before, turn) := (turns[..|turns| - 1], turns[|turns| - 1]);
      Made(before) + if turn.Lapse? then seq(turn.changes, i => Play(before).value.now + turn.ms) else []
  }

  /** A change was read at this time or later. */
  ghost predicate ReadSince(log: seq<Event>, at: nat) {
    exists r :: 0 <= r < |log| && log[r].Read? && log[r].at >= at
  }

  /** All but the last `queued` of these changes have been read. */
  ghost predicate AllRead(made: seq<nat>, queued: nat, log: seq<Event>) {
    && queued <= |made|
    && Reads(log) <= |made| - queued
    && forall k :: 0 <= k < |made| - queued ==> ReadSince(log, made[k])
  }

  lemma OneMoreRead(made: seq<nat>, queued: nat, log: seq<Event>, more: seq<Event>, left: nat, now: nat)
    requires AllRead(made, queued, log) && left < queued && more == log + [Read(now)]
    requires forall k :: 0 <= k < |made| ==> made[k] <= now
    ensures AllRead(made, left, more)
  {
    assert more[..|more| - 1] == log && more[|log|] == Read(now);
  }

  lemma OneMoreRun(made: seq<nat>, queued: nat, log: seq<Event>, more: seq<Event>, e: Event)
    requires AllRead(made, queued, log) && e.Started? && more == log + [e]
    ensures AllRead(made, queued, more)
  {
    assert more[..|more| - 1] == log;
    forall k | 0 <= k < |made| - queued ensures ReadSince(more, made[k]) {
      assert ReadSince(log, made[k]);
      var r :| 0 <= r < |log| && log[r].Read? && log[r].at >= made[k];
      assert more[r] == log[r];
    }
  }

  lemma EventReads(s: Watch, taken: nat, made: seq<nat>)
    requires s.batch != [] && AllRead(made, s.queued, s.log) && forall k :: 0 <= k < |made| ==> made[k] <= s.now
    ensures AllRead(made, Handle(s, taken).queued, Handle(s, taken).log) && Handle(s, taken).now == s.now
  {
    hide AllRead;
    if s.batch[0] == Tfd {
      OneMoreRun(made, s.queued, s.log, s.log + [Started(s.now, s.readInBatch)], Started(s.now, s.readInBatch));
    } else if taken > 0 && s.queued > 0 {
      OneMoreRead(made, s.queued, s.log, s.log + [Read(s.now)], Handle(s, taken).queued, s.now);
    }
  }

  lemma MoreMade(made: seq<nat>, queued: nat, log: seq<Event>, changes: nat, at: nat)
    requires AllRead(made, queued, log)
    ensures AllRead(made + seq(changes, i => at), queued + changes, log)
  {
  }

  /** Every change is still queued or was read after it was made; and there are no more reads than changes
      taken from the queue. */
  lemma {:induction false} EveryChangeIsRead(turns: seq<Turn>, s: Watch)
    requires Play(turns) == Some(s)
    ensures AllRead(Made(turns), s.queued, s.log)
    ensures forall k :: 0 <= k < |Made(turns)| ==> Made(turns)[k] <= s.now
    decreases |turns|
  {
    if turns != [] {
      var u := Play(turns[..|turns| - 1]).value;
      EveryChangeIsRead(turns[..|turns| - 1], u);
      hide AllRead, Handle, IsBatch;
      match turns[|turns| - 1]
      case Lapse(ms, changes) => MoreMade(Made(turns[..|turns| - 1]), u.queued, u.log, changes, u.now + ms);
      case Return(order) =>
      case Interrupted =>
      case Next(taken) => EventReads(u, taken, Made(turns[..|turns| - 1]));
    }
  }

  /** Once everything has come to rest, every change was followed by a run of the client; and there were no
      more runs than changes. */
  lemma EveryChangeIsServed(turns: seq<Turn>, s: Watch, k: nat)
    requires Play(turns) == Some(s) && s.queued == 0 && s.timer.None? && !s.expired && s.batch == []
    requires k < |Made(turns)|
    ensures exists j :: 0 <= j < |s.log| && s.log[j].Started? && s.log[j].at >= Made(turns)[k]
    ensures Runs(s.log) <= |Made(turns)|
  {
    EveryChangeIsRead(turns, s);
    PlayKeepsInv(turns, s);
    hide Play, Made, RunsQuiet, Runs, Reads;
    assert ReadSince(s.log, Made(turns)[k]);
    var r :| 0 <= r < |s.log| && s.log[r].Read? && s.log[r].at >= Made(turns)[k];
    assert s.log[|s.log| - 1].Started? && s.log[|s.log| - 1].at >= s.log[r].at;
  }

  /** epoll_wait may return the ready descriptors in either order, but no others and each once. */
  lemma BatchesExact(s: Watch, order: seq<Fd>)
    ensures IsBatch(s, order) <==> && (Ifd in order <==> s.queued > 0) && (Tfd in order <==> s.expired)
                                   && forall i, k :: 0 <= i < k < |order| ==> order[i] != order[k]
  {
    if forall i, k :: 0 <= i < k < |order| ==> order[i] != order[k] {
      AtMostTwo(order);
    }
  }

  lemma OneOfTwo(a: Fd, b: Fd, c: Fd)
    ensures a == b || a == c || b == c
  {
  }

  lemma AtMostTwo(order: seq<Fd>)
    requires forall i, k :: 0 <= i < k < |order| ==> order[i] != order[k]
    ensures order == [] || order == [Ifd] || order == [Tfd] || order == [Ifd, Tfd] || order == [Tfd, Ifd]
  {
    if |order| >= 3 {
      OneOfTwo(order[0], order[1], order[2]);
      assert false;
    } else if |order| == 2 {
      assert order == [order[0], order[1]] && order[0] != order[1];
    } else if |order| == 1 {
      assert order == [if order[0] == Ifd then Ifd else Tfd];
    } else {
      assert order == [];
    }
  }

  /** The exception happens: a change that comes while an expiry is in the batch is read first, the
      run starts at once, and the next change is read 100 ms later. */
  lemma StaleRunHappens() returns (turns: seq<Turn>, s: Watch)
    ensures Play(turns) == Some(s) && s.log == [Read(0), Read(300), Started(300, true), Read(400)]
  {
    turns, s := [], START;
    assert Play(turns) == Some(s);
    hide Play;
    turns, s := Go(turns, s, Lapse(0, 1));
    turns, s := Go(turns, s, Return([Ifd]));
    turns, s := Go(turns, s, Next(1));
    assert s == Watch(0, Some(300), false, 0, [], true, [Read(0)]);
    turns, s := Go(turns, s, Lapse(300, 1));
    turns, s := Go(turns, s, Return([Ifd, Tfd]));
    assert s == Watch(300, None, true, 1, [Ifd, Tfd], false, [Read(0)]);
    turns, s := Go(turns, s, Next(1));
    turns, s := Go(turns, s, Next(1));
    assert s == Watch(300, Some(600), false, 0, [], true, [Read(0), Read(300), Started(300, true)]);
    turns, s := Go(turns, s, Lapse(100, 1));
    turns, s := Go(turns, s, Return([Ifd]));
    turns, s := Go(turns, s, Next(1));
  }

  lemma Go(turns: seq<Turn>, s: Watch, turn: Turn) returns (longer: seq<Turn>, t: Watch)
    requires Play(turns) == Some(s) && Step(s, turn).Some?
    ensures Play(longer) == Some(t) && Step(s, turn) == Some(t)
  {
    longer, t := turns + [turn], Step(s, turn).value;
    assert longer[..|longer| - 1] == turns;
  }
}
