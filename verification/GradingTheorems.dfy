/** What every run of the grading server keeps: records stay in their week, verdicts are compared
    with the right answers, rows go where they belong, and every run comes to its end. */
module GradingTheorems {
  import opened GradingServer
  import opened Options
  import Tracker

  // ----------------------------------------------------------------------- week-switch isolation

  /** Between the reset of a switch and the next change of week, the table holds the submissions
      whose copied week is the current one, and no other: exactly the records made during this
      week, except those made before the reset of the switch to it. */
  lemma WeekIsolation(s: State, turns: seq<Turn>, t: State)
    requires Initial(s) && WellFormed(s) && Play(s, turns) == Some(t)
    requires !t.ctl.SwSet? && !t.ctl.SwDirs? && !t.ctl.SwWantTable? && !t.ctl.SwHeldTable?
    ensures forall k :: t.table.resetAt <= k < |t.table.log| ==> t.table.log[k].task == Current(t.hw)
    ensures forall k :: 0 <= k < |t.table.log| ==>
              (t.table.resetAt <= k <==> t.table.log[k].at == Now(t.hw) && !t.table.log[k].early)
  {
    hide Initial, Play, HwLockSound, TableLockSound, CsvLockSound, WorkersSound, StudentsSound, ReportSound;
    hide CsvSound, Conserved;
    PlayKeepsInv(s, turns, t);
  }

  /** So the students array is, then, the fold of the results of exactly these submissions. */
  lemma StudentsOfTheWeek(s: State, turns: seq<Turn>, t: State)
    requires Initial(s) && WellFormed(s) && Play(s, turns) == Some(t)
    requires !t.ctl.SwSet? && !t.ctl.SwDirs? && !t.ctl.SwWantTable? && !t.ctl.SwHeldTable?
    ensures t.table.resetAt <= |t.table.log|
    ensures var recent := t.table.log[t.table.resetAt..];
            && (forall r | r in recent :: r.task == Current(t.hw))
            && t.table.students == Tracker.After(Results(recent))
            && (Tracker.ProperIds(Results(recent)) ==> Tracker.Describes(t.table.students, Results(recent)))
  {
    hide Initial, Play, HwLockSound, TableLockSound, CsvLockSound, WorkersSound, CsvSound, TableBehind, Results;
    hide RecSound;
    hide Tracker.Describes, Tracker.ProperIds, Tracker.After, Conserved;
    WeekIsolation(s, turns, t);
    PlayKeepsInv(s, turns, t);
    var recent := t.table.log[t.table.resetAt..];
    if Tracker.ProperIds(Results(recent)) {
      Tracker.TableDescribesHistory(Results(recent));
    }
  }

  /** And what each of these submissions was told is how often its student had tried since the reset,
      at most 65535, or 0 if the table had no room for the student. */
  lemma AttemptsTold(s: State, turns: seq<Turn>, t: State, k: nat)
    requires Initial(s) && WellFormed(s) && Play(s, turns) == Some(t)
    requires t.table.resetAt <= k < |t.table.log| && Tracker.ProperIds(Results(t.table.log[t.table.resetAt..]))
    ensures var h := Results(t.table.log[t.table.resetAt..k + 1]);
            var (id, told) := (t.table.log[k].result.0, t.table.log[k].told);
            if id in Tracker.Roster(h) then
              told == if Tracker.Attempts(h, id) > 65535 then 65535 else Tracker.Attempts(h, id)
            else told == 0 && |Tracker.Roster(h)| == 512
  {
    hide Initial, Play, HwLockSound, TableLockSound, CsvLockSound, WorkersSound, TableSound, CsvSound, Conserved;
    hide ReportSound, Tracker.Record, Tracker.After, Tracker.Roster, Tracker.Attempts;
    PlayKeepsInv(s, turns, t);
    var at, log := t.table.resetAt, t.table.log;
    var (h0, h, r) := (Results(log[at..k]), Results(log[at..k + 1]), log[k].result);
    assert h == h0 + [r];
    forall x | x in h0 ensures Tracker.ProperId(x.0) {
      var j :| 0 <= j < |h0| && h0[j] == x;
      assert Results(log[at..])[j] == x;
    }
    assert Results(log[at..])[k - at] == r;
    Tracker.ReportedAttempts(h0, r.0, r.1);
    Tracker.Snoc(h0, r.0, r.1, r.0);
  }

  /** CMD_GET_TRACKER reads the solved count, the week, the record counter and the students at four moments,
      but all of one week: when it reads the students, the array is what it was at the count plus the
      submissions since, the week is the one it read, and the counter was that of the rows written by then
      to the file whose rows are counted now. */
  lemma ReportIsOfOneWeek(s: State, turns: seq<Turn>, t: State)
    returns (h: Tracker.History, between: Tracker.History, k: nat)
    requires Initial(s) && WellFormed(s) && Play(s, turns) == Some(t) && t.ctl.GtHeldList?
    ensures t.seen.table.students == Tracker.After(h) && t.table.students == Tracker.After(h + between)
    ensures t.table.resetAt <= |t.table.log| && h + between == Results(t.table.log[t.table.resetAt..])
    ensures t.seen.week == t.hw.hist[|t.hw.hist| - 1]
    ensures k <= |t.csv.rows| && t.seen.records == RowsIn(t.csv.rows[..k], t.csv.counted) % 0x1_0000_0000
  {
    hide Initial, Play, HwLockSound, TableLockSound, CsvLockSound, WorkersSound, TableSound, CsvSound, Conserved;
    hide Tracker.After, Tracker.Empty, RowsIn;
    PlayKeepsInv(s, turns, t);
    var at, seen := t.table.resetAt, t.seen.table.log;
    h := Results(seen[at..]);
    between := Results(t.table.log[|seen|..]);
    assert t.table.log[at..] == seen[at..] + t.table.log[|seen|..];
    assert h + between == Results(t.table.log[at..]);
    k :| 0 <= k <= |t.csv.rows| && CountedAt(t.csv, t.seen.records, k);
  }

  // ------------------------------------------------------------------------ optimistic validation

  /** The week left `task` and came back to it between lo and hi. */
  ghost predicate LeftAndReturned(hist: seq<Week>, task: Week, lo: nat, hi: nat)
    requires lo <= hi < |hist|
  {
    exists a, b, c :: lo <= a < b < c <= hi && hist[a] == task && hist[b] != task && hist[c] == task
  }

  /** For a record, whose first and last week are its task, never having come back to the task is
      never having left it. */
  lemma NeverReturnedIsNeverLeft(hist: seq<Week>, task: Week, lo: nat, hi: nat)
    requires lo <= hi < |hist| && hist[lo] == task == hist[hi]
    ensures !LeftAndReturned(hist, task, lo, hi) <==> forall e :: lo <= e <= hi ==> hist[e] == task
  {
    forall e | lo <= e <= hi && hist[e] != task ensures LeftAndReturned(hist, task, lo, hi) {
      assert hist[lo] == task && hist[e] != task && hist[hi] == task;
    }
  }

  /** A recorded verdict was compared with the answers of the week it is recorded under if and only if
      that was the week when the answer path was copied; so always, unless the week was switched away
      and back while the submission was being served. */
  lemma VerdictsMatchTheirWeek(s: State, turns: seq<Turn>, t: State, k: nat)
    requires Initial(s) && WellFormed(s) && Play(s, turns) == Some(t) && k < |t.table.log|
    ensures var r := t.table.log[k];
            && r.born <= r.at < |t.hw.hist|
            && t.hw.hist[r.born] == r.task == t.hw.hist[r.at]
            && (r.judged.Some? ==> r.born <= r.read <= r.at &&
                                   (r.judged.value == r.task <==> t.hw.hist[r.read] == r.task))
            && (r.judged.Some? && !LeftAndReturned(t.hw.hist, r.task, r.born, r.at) ==> r.judged.value == r.task)
  {
    hide Initial, Play, LeftAndReturned, HwLockSound, TableLockSound, CsvLockSound;
    hide WorkersSound, StudentsSound, ReportSound, CsvSound, TableBehind;
    PlayKeepsInv(s, turns, t);
    var r := t.table.log[k];
    assert RecSound(r, t.hw.hist);
    NeverReturnedIsNeverLeft(t.hw.hist, r.task, r.born, r.at);
  }

  // -------------------------------------------------------------------------------- CSV placement

  /** A row goes to the file of its own week or, if written before the file of that week is in
      place, to the file of the week just before; never to a later one. */
  lemma RowPlacement(s: State, turns: seq<Turn>, t: State, k: nat)
    requires Initial(s) && WellFormed(s) && Play(s, turns) == Some(t) && k < |t.csv.rows|
    ensures var r := t.csv.rows[k];
            && r.at < |t.hw.hist| && t.hw.hist[r.at] == r.week
            && (r.early ==> r.at > 0 && r.file == t.hw.hist[r.at - 1])
            && (r.file == r.week <==> !r.early || t.hw.hist[r.at - 1] == r.week)
  {
    hide Initial, Play, HwLockSound, TableLockSound, CsvLockSound, WorkersSound, StudentsSound, ReportSound;
    hide TableSound, CsvBehind;
    PlayKeepsInv(s, turns, t);
    assert RowSound(t.csv.rows[k], t.hw.hist);
  }

  /** total_records counts the rows in the file opened last, which is the open one if one is, modulo 2^32;
      and every record has its row, with its week, student and grade, has lost it or is still to have it:
      none is doubled, and none made up. */
  lemma RowsAreCounted(s: State, turns: seq<Turn>, t: State)
    requires Initial(s) && WellFormed(s) && Play(s, turns) == Some(t)
    ensures t.csv.total == RowsIn(t.csv.rows, t.csv.counted) % 0x1_0000_0000
    ensures t.csv.open ==> t.csv.counted == t.csv.no
    ensures Records(t.table.log) == Rows(t.csv.rows) + multiset(t.csv.lost) + InHand(t.workers, Pending)
  {
    hide Initial, Play, HwLockSound, TableLockSound, CsvLockSound, WorkersSound, StudentsSound, ReportSound;
    hide TableSound, RowSound, CsvBehind;
    PlayKeepsInv(s, turns, t);
  }

  /** A record loses its row exactly when its worker finds the file closed, at the unlocked look at
      csv_fd or at the write. While all opens succeed that is the look between the close and the open
      of a switch: there always, and nowhere else. */
  lemma RowsAreLostExactlyMidSwitch(s: State, turns: seq<Turn>, t: State, turn: Turn)
    requires Initial(s) && WellFormed(s) && Play(s, turns) == Some(t)
    ensures var next := Step(t, turn);
            next.Some? ==>
              && (next.value.csv.lost != t.csv.lost <==>
                  !t.csv.open && turn.ByWorker? && turn.i < |t.workers| &&
                  (t.workers[turn.i].pc.AtCsv? || t.workers[turn.i].pc.HeldCsv?))
              && (t.csv.opensFailed == 0 ==>
                    (next.value.csv.lost != t.csv.lost <==>
                     t.ctl.SwClosed? && turn.ByWorker? && turn.i < |t.workers| && t.workers[turn.i].pc.AtCsv?))
  {
    hide Initial, Play, Inv;
    PlayKeepsInv(s, turns, t);
    match turn
    case ByWorker(i, c) =>
      if Step(t, turn).Some? {
        MoveLoses(t.workers[i], i, t, c, WorkerMove(t.workers[i], i, t, c));
        if t.csv.opensFailed == 0 {
          LostExactly(t, i, c);
        }
      }
      hide WorkerMove;
    case ByCtl(c) =>
      if Step(t, turn).Some? {
        CtlCsv(t, c, Step(t, turn).value);
      }
      hide SwitchStep, CommandStep;
  }

  lemma MoveLoses(w: Worker, i: nat, s: State, c: Choice, m: Move)
    requires WellFormed(s) && m == WorkerMove(w, i, s, c) && m.Move?
    ensures m.csv.lost != s.csv.lost <==> !s.csv.open && (w.pc.AtCsv? || w.pc.HeldCsv?)
  {
    hide ReadLock, ReadUnlock, TableLock, CsvLock, Booked, TableBehind, CsvBehind, Current, Now;
  }

  lemma LostExactly(t: State, i: nat, c: Choice)
    requires Inv(t) && i < |t.workers| && WorkerMove(t.workers[i], i, t, c).Move? && t.csv.opensFailed == 0
    ensures WorkerMove(t.workers[i], i, t, c).csv.lost != t.csv.lost <==> t.ctl.SwClosed? && t.workers[i].pc.AtCsv?
  {
    MoveLoses(t.workers[i], i, t, c, WorkerMove(t.workers[i], i, t, c));
    hide HwLockSound, TableLockSound, WorkersSound, TableSound, StudentsSound, ReportSound, Conserved, WorkerMove;
    assert t.csv.open <==> !t.ctl.SwClosed?;
    if t.ctl.SwClosed? {
      assert t.locks.csv == Some(|t.workers|);
      assert !HoldsCsv(t.workers[i].pc);
    }
  }

  // ------------------------------------------------------------------------------------- progress

  predicate Finished(s: State) {
    && s.ctl.CtlIdle? && s.commands == []
    && forall i :: 0 <= i < |s.workers| ==> s.workers[i].pc.Idle? && s.workers[i].jobs == 0
  }

  /** How many steps a worker can still take. */
  function Rank(pc: Pc): nat {
    match pc
    case Idle => 0
    case WantSnap => 22 case HeldSnap => 21 case Snapped => 20 case Serving => 19
    case WantDist => 2 case HeldDist => 1
    case WantAns => 18 case HeldAns => 17 case GotAns => 16 case Comparing => 15
    case WantCheck => 14 case HeldCheck => 13
    case WantTable => 12 case HeldTable => 11 case Recorded => 10
    case AtCsv => 9 case WantCsv => 8 case HeldCsv => 7 case Written => 6
    case Leaving => 5 case WantCount => 4 case HeldCount => 3
  }

  function Work(w: Worker): nat {
    23 * w.jobs + Rank(w.pc)
  }

  function CtlRank(ctl: Ctl): nat {
    match ctl
    case CtlIdle => 0
    case SwWant => 11 case SwHeld => 10 case SwSet => 9 case SwDirs => 8
    case SwWantTable => 7 case SwHeldTable => 6 case SwReset => 5
    case SwWantCsv => 4 case SwHeldCsv => 3 case SwClosed => 2 case SwOpened => 1
    case GtWantTable => 8 case GtHeldTable => 7 case GtWantHw => 6 case GtHeldHw => 5
    case GtWantCsv => 4 case GtHeldCsv => 3 case GtWantList => 2 case GtHeldList => 1
    case CsWantCsv => 2 case CsHeldCsv => 1
    case StWantTable => 2 case StHeldTable => 1
  }

  /** What is left to do in the whole server. */
  function Measure(s: State): nat {
    Total(s.workers, Work) + 12 * |s.commands| + CtlRank(s.ctl)
  }

  lemma MoveWorks(w: Worker, i: nat, s: State, c: Choice)
    requires WellFormed(s) && WorkerMove(w, i, s, c).Move?
    ensures Work(WorkerMove(w, i, s, c).w) < Work(w)
  {
    hide TableBehind, CsvBehind, ReadLock, ReadUnlock, TableLock, CsvLock, Current, Now;
  }

  lemma CtlWorks(s: State, c: Choice, t: State)
    requires WellFormed(s) && CtlStep(s, c) == Some(t)
    ensures t.workers == s.workers
    ensures 12 * |t.commands| + CtlRank(t.ctl) < 12 * |s.commands| + CtlRank(s.ctl)
  {
    CtlHw(s, c, t);
    hide ReadLock, ReadUnlock, TableLock, CsvLock, Current, Now;
    if s.ctl.CtlIdle? {
      NextCommandWorks(s, t);
    }
    hide NextCommand;
  }

  lemma NextCommandWorks(s: State, t: State)
    requires WellFormed(s) && s.ctl.CtlIdle? && NextCommand(s) == Some(t)
    ensures 12 * |t.commands| + CtlRank(t.ctl) < 12 * |s.commands|
  {
  }

  /** Every step of every thread brings the end nearer. */
  lemma StepDecreases(s: State, turn: Turn, t: State)
    requires WellFormed(s) && Step(s, turn) == Some(t)
    ensures Measure(t) < Measure(s)
  {
    match turn
    case ByWorker(i, c) =>
      MoveWorks(s.workers[i], i, s, c);
      TotalUpdate(s.workers, i, t.workers[i], Work);
      hide WorkerMove, Work, CtlRank;
    case ByCtl(c) =>
      CtlWorks(s, c, t);
      hide CtlStep, CtlRank, Work;
  }

  /** A worker can go on if it holds a mutex, or holds hw_lock while the mutexes are free, or if no
      writer is in or before hw_lock and the mutexes are free. */
  lemma WorkerReady(w: Worker, i: nat, s: State, c: Choice)
    requires WellFormed(s)
    requires w.pc.Idle? ==> w.jobs > 0
    requires HoldsTable(w.pc) || HoldsCsv(w.pc) ||
             (s.locks.table.None? && s.locks.csv.None? &&
              (HoldsHw(w.pc) || (!s.locks.hwWriter && !s.ctl.SwWant?)))
    ensures WorkerMove(w, i, s, c).Move?
  {
    hide TableBehind, CsvBehind, Current, Now;
  }

  lemma CtlReady(s: State, c: Choice)
    requires WellFormed(s)
    requires s.ctl.CtlIdle? ==> s.commands != []
    requires CtlHoldsTable(s.ctl) || CtlHoldsCsv(s.ctl) || (s.locks.table.None? && s.locks.csv.None?)
    requires s.ctl.SwWant? ==> !s.locks.hwWriter && s.locks.hwReaders == {}
    requires s.ctl.GtWantHw? ==> !s.locks.hwWriter
    ensures CtlStep(s, c).Some?
  {
    hide TableBehind, CsvBehind, Current;
  }

  /** Whoever holds a mutex can go on. */
  lemma MutexHolderMoves(s: State, c: Choice) returns (turn: Turn)
    requires Inv(s) && (s.locks.table.Some? || s.locks.csv.Some?)
    ensures Step(s, turn).Some?
  {
    hide WorkerMove, CtlStep, WorkersSound, TableSound, StudentsSound, ReportSound, CsvSound, Conserved;
    var o := if s.locks.table.Some? then s.locks.table.value else s.locks.csv.value;
    if o < |s.workers| {
      assert HoldsTable(s.workers[o].pc) || HoldsCsv(s.workers[o].pc);
      assert !s.workers[o].pc.Idle?;
      WorkerReady(s.workers[o], o, s, c);
      turn := ByWorker(o, c);
    } else {
      assert CtlHoldsTable(s.ctl) || CtlHoldsCsv(s.ctl);
      CtlReady(s, c);
      turn := ByCtl(c);
    }
  }

  /** No deadlock: in every reachable state with an unfinished thread some thread can step, even if
      waiting writers go before readers. */
  lemma SomeoneMoves(s: State, c: Choice) returns (turn: Turn)
    requires Inv(s) && !Finished(s)
    ensures Step(s, turn).Some?
  {
    hide WorkerMove, CtlStep, WorkersSound, TableSound, CsvSound, Conserved, HoldsTable, HoldsCsv;
    hide CtlHoldsTable, CtlHoldsCsv;
    if s.locks.table.Some? || s.locks.csv.Some? {
      turn := MutexHolderMoves(s, c);
    } else if i :| 0 <= i < |s.workers| && HoldsHw(s.workers[i].pc) {
      WorkerReady(s.workers[i], i, s, c);
      turn := ByWorker(i, c);
    } else if !s.ctl.CtlIdle? || s.commands != [] {
      NoReaderLeft(s);
      CtlReady(s, c);
      turn := ByCtl(c);
    } else {
      var i :| 0 <= i < |s.workers| && !(s.workers[i].pc.Idle? && s.workers[i].jobs == 0);
      WorkerReady(s.workers[i], i, s, c);
      turn := ByWorker(i, c);
    }
  }

  lemma NoReaderLeft(s: State)
    requires HwLockSound(s)
    requires forall i :: 0 <= i < |s.workers| ==> !HoldsHw(s.workers[i].pc)
    ensures !s.ctl.GtHeldHw? ==> s.locks.hwReaders == {}
  {
    hide HoldsHw;
  }

  /** Every run ends: it has at most Measure turns, and it stops only when every thread is done and
      every lock is free. */
  lemma EveryRunFinishes(s: State, turns: seq<Turn>, t: State)
    requires Initial(s) && WellFormed(s) && Play(s, turns) == Some(t)
    ensures |turns| + Measure(t) <= Measure(s)
    ensures (forall turn :: Step(t, turn).None?) <==> Finished(t)
    ensures Finished(t) ==> && t.locks == Locks(false, {}, None, None)
                            && Records(t.table.log) == Rows(t.csv.rows) + multiset(t.csv.lost)
  {
    hide *;
    PlayKeepsInv(s, turns, t);
    PlayDecreases(s, turns, t);
    if Finished(t) {
      NothingLeft(t);
    } else {
      var turn := SomeoneMoves(t, Choice(Dropped, ([], Tracker.AC), false, false, false));
    }
  }

  lemma {:induction false} PlayDecreases(s: State, turns: seq<Turn>, t: State)
    requires WellFormed(s) && Play(s, turns) == Some(t)
    ensures |turns| + Measure(t) <= Measure(s)
    decreases |turns|
  {
    if turns != [] {
      var u := Play(s, turns[..|turns| - 1]).value;
      PlayDecreases(s, turns[..|turns| - 1], u);
      StepDecreases(u, turns[|turns| - 1], t);
    }
    hide Measure, Step;
  }

  lemma NobodyMoves(t: State, turn: Turn)
    requires WellFormed(t) && Finished(t)
    ensures Step(t, turn).None?
  {
  }

  lemma NothingHeld(t: State)
    requires HwLockSound(t) && TableLockSound(t) && CsvLockSound(t) && Finished(t)
    ensures t.locks == Locks(false, {}, None, None)
  {
    NoReaderLeft(t);
  }

  lemma NothingLeft(t: State)
    requires Inv(t) && Finished(t)
    ensures forall turn :: Step(t, turn).None?
    ensures t.locks == Locks(false, {}, None, None)
    ensures Records(t.table.log) == Rows(t.csv.rows) + multiset(t.csv.lost)
  {
    NothingInHand(t.workers, Pending);
    NothingHeld(t);
    forall turn ensures Step(t, turn).None? {
      NobodyMoves(t, turn);
    }
    hide WorkersSound, TableSound, StudentsSound, ReportSound, CsvSound, HwLockSound, TableLockSound;
    hide CsvLockSound, Step, Finished;
  }
}
