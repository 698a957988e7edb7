/** What a run of the grading server did, read off the turns it took: every connection is served to its
    end, every submission that passes the final check is recorded once and as it was graded, and every
    command is carried out. */
module GradingRuns {
  import opened GradingServer
  import opened Options
  import Tracker

  /** A run from s. */
  predicate IsRun(s: State, turns: seq<Turn>) {
    WellFormed(s) && Play(s, turns).Some?
  }

  /** The state that the last turn finds. */
  function Found(s: State, turns: seq<Turn>): (u: State)
    requires IsRun(s, turns) && turns != []
    ensures IsRun(s, turns[..|turns| - 1]) && Play(s, turns[..|turns| - 1]) == Some(u) && WellFormed(u)
    ensures Step(u, turns[|turns| - 1]) == Play(s, turns)
  {
    Play(s, turns[..|turns| - 1]).value
  }

  /** The last turn is one of worker i. */
  predicate IsBy(turns: seq<Turn>, i: nat, u: State) {
    turns != [] && turns[|turns| - 1].ByWorker? && turns[|turns| - 1].i == i < |u.workers|
  }

  // ------------------------------------------------------------------- the life of a submission

  /** What the turns so far show of the connection worker i is serving: the week it copied and its
      number, the answers it copied last and their number, whether the outputs were compared with
      them, and the submission with its grade. */
  datatype Life = Life(task: Week, born: nat, answers: Week, read: nat, compared: bool, work: Result)

  function LifeOf(s: State, turns: seq<Turn>, i: nat): Life
    requires IsRun(s, turns)
    decreases |turns|
  {
    if turns == [] then Life("", 0, "", 0, false, ([], Tracker.AC))
    else
      var u, life := Found(s, turns), LifeOf(s, turns[..|turns| - 1], i);
      if !IsBy(turns, i, u) then life else Lived(life, u.workers[i].pc, u.hw.hist, turns[|turns| - 1].choice)
  }

  /** What a turn adds that finds its worker there. */
  function Lived(life: Life, pc: Pc, hist: seq<Week>, c: Choice): Life
    requires hist != []
  {
    var no := |hist| - 1;
    match pc
    case HeldSnap => Life(hist[no], no, hist[no], no, false, life.work)
    case Serving => life.(work := c.result)
    case HeldAns => life.(answers := hist[no], read := no)
    case Comparing =>
      life.(compared := c.readable,
            work := (life.work.0, if c.readable && !c.same then Tracker.WA else Tracker.AC))
    case _ => life
  }

  /** The worker has received its submission. */
  predicate HasWork(pc: Pc) {
    HasTask(pc) && !pc.Snapped? && !pc.Serving?
  }

  /** What a worker holds is what the turns show. */
  predicate Lives(w: Worker, life: Life) {
    && (HasTask(w.pc) ==> w.task == life.task && w.born == life.born && w.read == life.read)
    && (HasTask(w.pc) && Unjudged(w.pc) ==> !life.compared)
    && (w.pc.GotAns? || w.pc.Comparing? ==> w.ans == life.answers)
    && (HasWork(w.pc) ==> w.work == life.work)
    && (HasTask(w.pc) ==> w.judged == if life.compared then Some(life.answers) else None)
  }

  lemma MoveLives(w: Worker, i: nat, s: State, c: Choice, life: Life)
    requires WellFormed(s) && WorkerMove(w, i, s, c).Move? && s.hw.ansPath == Current(s.hw)
    requires VerdictSound(w, s.hw.hist) && Lives(w, life)
    ensures Lives(WorkerMove(w, i, s, c).w, Lived(life, w.pc, s.hw.hist, c))
  {
    hide TableBehind, CsvBehind, ReadLock, ReadUnlock, TableLock, CsvLock, Booked;
  }

  /** A turn leaves the other workers alone, and the control thread leaves all. */
  lemma OthersStay(s: State, turn: Turn, t: State)
    requires WellFormed(s) && Step(s, turn) == Some(t)
    ensures |t.workers| == |s.workers|
    ensures forall j :: 0 <= j < |s.workers| && !(turn.ByWorker? && turn.i == j) ==> t.workers[j] == s.workers[j]
    ensures turn.ByWorker? ==>
              && turn.i < |s.workers| && WorkerStep(s, turn.i, turn.choice) == Some(t)
              && WorkerMove(s.workers[turn.i], turn.i, s, turn.choice).Move?
              && t.workers[turn.i] == WorkerMove(s.workers[turn.i], turn.i, s, turn.choice).w
              && t.table == WorkerMove(s.workers[turn.i], turn.i, s, turn.choice).table
              && t.hw == s.hw && t.ctl == s.ctl && t.commands == s.commands && t.target == s.target
  {
    match turn
    case ByWorker(i, c) =>
      hide WorkerMove;
    case ByCtl(c) =>
      CtlHw(s, c, t);
  }

  /** At every moment of every run, each worker's week, answers, verdict, student and grade are those
      that the turns show. */
  lemma {:induction false} WorkersLive(s: State, turns: seq<Turn>, t: State, i: nat)
    requires Initial(s) && IsRun(s, turns) && Play(s, turns) == Some(t)
    ensures i < |t.workers| ==> Lives(t.workers[i], LifeOf(s, turns, i))
    decreases |turns|
  {
    hide WorkerMove, Lives, Lived, Play, Step, Initial, Inv;
    if turns == [] {
      if i < |t.workers| {
        IdleLives(s, turns, t, i);
      }
    } else {
      var u, turn := Found(s, turns), turns[|turns| - 1];
      WorkersLive(s, turns[..|turns| - 1], u, i);
      OthersStay(u, turn, t);
      if IsBy(turns, i, u) {
        RunIsSound(s, turns[..|turns| - 1], u, i);
        MoveLives(u.workers[i], i, u, turn.choice, LifeOf(s, turns[..|turns| - 1], i));
      }
    }
  }

  lemma IdleLives(s: State, turns: seq<Turn>, t: State, i: nat)
    requires Initial(s) && IsRun(s, turns) && turns == [] && Play(s, turns) == Some(t) && i < |t.workers|
    ensures Lives(t.workers[i], LifeOf(s, turns, i))
  {
    assert t.workers[i].pc == Idle;
  }

  lemma RunIsSound(s: State, turns: seq<Turn>, u: State, i: nat)
    requires Initial(s) && IsRun(s, turns) && Play(s, turns) == Some(u) && i < |u.workers|
    ensures u.hw.ansPath == Current(u.hw) && VerdictSound(u.workers[i], u.hw.hist)
  {
    PlayKeepsInv(s, turns, u);
    hide HwLockSound, TableLockSound, CsvLockSound, TableSound, StudentsSound, ReportSound, CsvSound, Conserved, Play;
  }

  // ------------------------------------------------------------------------------- what is recorded

  /** A week has been entered whose reset has not been made. */
  function ResetDue(s: State, turns: seq<Turn>): bool
    requires IsRun(s, turns)
    decreases |turns|
  {
    if turns == [] then false
    else
      var due, u := ResetDue(s, turns[..|turns| - 1]), Found(s, turns);
      if turns[|turns| - 1].ByWorker? then due
      else if u.ctl.SwHeld? then true
      else if u.ctl.SwHeldTable? then false
      else due
  }

  lemma {:induction false} ResetIsDue(s: State, turns: seq<Turn>, t: State)
    requires Initial(s) && IsRun(s, turns) && Play(s, turns) == Some(t)
    ensures TableBehind(t.ctl) <==> ResetDue(s, turns)
    decreases |turns|
  {
    if turns != [] {
      var u, turn := Found(s, turns), turns[|turns| - 1];
      ResetIsDue(s, turns[..|turns| - 1], u);
      if turn.ByWorker? {
        OthersStay(u, turn, t);
      } else {
        CtlTable(u, turn.choice, t);
      }
      hide CtlStep, WorkerStep, TableBehind, Step, Play, Initial;
    }
  }

  /** The records the turns made: one by each turn that finds a worker with the table locked. */
  function Made(s: State, turns: seq<Turn>): seq<Rec>
    requires IsRun(s, turns)
    decreases |turns|
  {
    if turns == [] then []
    else
      var made, before, turn := Made(s, turns[..|turns| - 1]), turns[..|turns| - 1], turns[|turns| - 1];
      var u := Found(s, turns);
      if turn.ByWorker? && turn.i < |u.workers| && u.workers[turn.i].pc.HeldTable? then
        var life := LifeOf(s, before, turn.i);
        made + [Rec(life.task, if life.compared then Some(life.answers) else None, life.born, life.read,
                    |u.hw.hist| - 1, ResetDue(s, before), life.work, 0)]
      else made
  }

  /** The table's log, but for the numbers of attempts. */
  function Untold(log: seq<Rec>): (r: seq<Rec>)
    ensures |r| == |log|
  {
    seq(|log|, i requires 0 <= i < |log| => log[i].(told := 0))
  }

  lemma UntoldSnoc(log: seq<Rec>, r: Rec)
    ensures Untold(log + [r]) == Untold(log) + [r.(told := 0)]
  {
  }

  lemma MoveRecords(w: Worker, i: nat, s: State, c: Choice, m: Move)
    requires WellFormed(s) && m == WorkerMove(w, i, s, c) && m.Move?
    ensures if w.pc.HeldTable? then
              m.table == Booked(s.table, Rec(w.task, w.judged, w.born, w.read, Now(s.hw), TableBehind(s.ctl),
                                             w.work, 0))
            else m.table == s.table
  {
    hide Booked, TableBehind, CsvBehind, ReadLock, ReadUnlock, TableLock, CsvLock;
  }

  /** The log of records is exactly what the turns made, each with the week, the verdict, the student and
      the grade of the submission its worker was serving. */
  lemma {:induction false} LogIsWhatWasMade(s: State, turns: seq<Turn>, t: State)
    requires Initial(s) && IsRun(s, turns) && Play(s, turns) == Some(t)
    ensures Untold(t.table.log) == Made(s, turns)
    decreases |turns|
  {
    hide Initial, Play, Step, WorkerMove, Booked, TableBehind, LifeOf, ResetDue;
    if turns == [] {
      NothingMade(s, turns, t);
    } else {
      var u, turn, before := Found(s, turns), turns[|turns| - 1], turns[..|turns| - 1];
      LogIsWhatWasMade(s, before, u);
      OthersStay(u, turn, t);
      if turn.ByWorker? {
        var w := u.workers[turn.i];
        MoveRecords(w, turn.i, u, turn.choice, WorkerMove(w, turn.i, u, turn.choice));
        WorkersLive(s, before, u, turn.i);
        ResetIsDue(s, before, u);
        if w.pc.HeldTable? {
          var r := Rec(w.task, w.judged, w.born, w.read, Now(u.hw), TableBehind(u.ctl), w.work, 0);
          BookedLog(u.table, r);
          UntoldSnoc(u.table.log, r.(told := Tracker.Record(u.table.students, r.result.0, r.result.1).1));
        }
      } else {
        StepByCtl(u, turn, t);
        CtlHw(u, turn.choice, t);
      }
    }
  }

  lemma StepByCtl(s: State, turn: Turn, t: State)
    requires WellFormed(s) && turn.ByCtl? && Step(s, turn) == Some(t)
    ensures CtlStep(s, turn.choice) == Some(t)
  {
  }

  lemma NothingMade(s: State, turns: seq<Turn>, t: State)
    requires Initial(s) && IsRun(s, turns) && turns == [] && Play(s, turns) == Some(t)
    ensures Untold(t.table.log) == Made(s, turns)
  {
  }

  /** The submissions that passed the final check: those whose week was the current one when their
      worker looked. */
  function Passed(s: State, turns: seq<Turn>): multiset<Entry>
    requires IsRun(s, turns)
    decreases |turns|
  {
    if turns == [] then multiset{}
    else
      var before, turn, u := turns[..|turns| - 1], turns[|turns| - 1], Found(s, turns);
      Passed(s, before) +
      if turn.ByWorker? && turn.i < |u.workers| && u.workers[turn.i].pc.HeldCheck? &&
         LifeOf(s, before, turn.i).task == u.hw.hist[|u.hw.hist| - 1]
      then multiset{(LifeOf(s, before, turn.i).task, LifeOf(s, before, turn.i).work)}
      else multiset{}
  }

  function ToRecord(w: Worker): multiset<Entry> {
    if w.pc.WantTable? || w.pc.HeldTable? then multiset{(w.task, w.work)} else multiset{}
  }

  lemma MovePasses(w: Worker, i: nat, s: State, c: Choice, m: Move)
    requires WellFormed(s) && m == WorkerMove(w, i, s, c) && m.Move?
    ensures ToRecord(m.w) + (if w.pc.HeldTable? then multiset{(w.task, w.work)} else multiset{})
         == ToRecord(w) + (if w.pc.HeldCheck? && w.task == s.hw.hist[|s.hw.hist| - 1] then multiset{(w.task, w.work)}
                           else multiset{})
  {
    hide Booked, TableBehind, CsvBehind, ReadLock, ReadUnlock, TableLock, CsvLock;
  }

  lemma RecordsGrow(table: Table, w: Worker, table': Table, r: Rec)
    requires table' == if w.pc.HeldTable? then Booked(table, r) else table
    requires r.task == w.task && r.result == w.work
    ensures Records(table'.log)
         == Records(table.log) + if w.pc.HeldTable? then multiset{(w.task, w.work)} else multiset{}
  {
    hide Records;
    if w.pc.HeldTable? {
      BookedLog(table, r);
      OneMoreRecord(table.log, r.(told := Tracker.Record(table.students, r.result.0, r.result.1).1));
    }
    hide Booked;
  }

  lemma PassBalance<T>(p: multiset<T>, r: multiset<T>, h: multiset<T>, add: multiset<T>, made: multiset<T>,
                       h': multiset<T>, before: multiset<T>, after: multiset<T>)
    requires p == r + h && h' + before == h + after && after + made == before + add
    ensures p + add == (r + made) + h'
  {
    forall x ensures (p + add)[x] == ((r + made) + h')[x] {
      assert p[x] == r[x] + h[x];
      assert (h' + before)[x] == h'[x] + before[x] && (h + after)[x] == h[x] + after[x];
      assert (after + made)[x] == after[x] + made[x] && (before + add)[x] == before[x] + add[x];
    }
  }

  /** Every submission that passes the final check is recorded, under its week, with its student and its
      grade, exactly once; and nothing else is. */
  lemma {:induction false} EveryPassIsRecorded(s: State, turns: seq<Turn>, t: State)
    requires Initial(s) && IsRun(s, turns) && Play(s, turns) == Some(t)
    ensures Passed(s, turns) == Records(t.table.log) + InHand(t.workers, ToRecord)
    decreases |turns|
  {
    hide Initial, Play, Step, WorkerMove, Booked, LifeOf, Records, ToRecord, InHand, Lives;
    if turns == [] {
      NothingPassed(s, turns, t);
    } else {
      var u, turn, before := Found(s, turns), turns[|turns| - 1], turns[..|turns| - 1];
      EveryPassIsRecorded(s, before, u);
      OthersStay(u, turn, t);
      if turn.ByWorker? {
        PassStep(s, turns, u, t);
      } else {
        StepByCtl(u, turn, t);
        CtlHw(u, turn.choice, t);
      }
    }
  }

  lemma NothingPassed(s: State, turns: seq<Turn>, t: State)
    requires Initial(s) && IsRun(s, turns) && turns == [] && Play(s, turns) == Some(t)
    ensures Passed(s, turns) == Records(t.table.log) + InHand(t.workers, ToRecord)
  {
    NothingInHand(t.workers, ToRecord);
  }

  lemma PassStep(s: State, turns: seq<Turn>, u: State, t: State)
    requires Initial(s) && IsRun(s, turns) && Play(s, turns) == Some(t) && turns != [] && u == Found(s, turns)
    requires turns[|turns| - 1].ByWorker?
    requires Passed(s, turns[..|turns| - 1]) == Records(u.table.log) + InHand(u.workers, ToRecord)
    ensures Passed(s, turns) == Records(t.table.log) + InHand(t.workers, ToRecord)
  {
    hide Initial, Play, Step, WorkerStep, WorkerMove, Booked, LifeOf, Records, ToRecord, InHand;
    var turn, before := turns[|turns| - 1], turns[..|turns| - 1];
    OthersStay(u, turn, t);
    var i := turn.i;
    var w := u.workers[i];
    var m := WorkerMove(w, i, u, turn.choice);
    var life := LifeOf(s, before, i);
    WorkersLive(s, before, u, i);
    MoveRecords(w, i, u, turn.choice, m);
    RecordsGrow(u.table, w, t.table,
                Rec(w.task, w.judged, w.born, w.read, Now(u.hw), TableBehind(u.ctl), w.work, 0));
    MovePasses(w, i, u, turn.choice, m);
    assert t.workers == u.workers[i := m.w];
    InHandUpdate(u.workers, i, m.w, ToRecord);
    PassBalance(Passed(s, before), Records(u.table.log), InHand(u.workers, ToRecord),
                if w.pc.HeldCheck? && w.task == u.hw.hist[|u.hw.hist| - 1] then multiset{(w.task, w.work)}
                else multiset{},
                if w.pc.HeldTable? then multiset{(w.task, w.work)} else multiset{},
                InHand(t.workers, ToRecord), ToRecord(w), ToRecord(m.w));
  }

  // --------------------------------------------------------------------------- connections and commands

  /** How many turns of worker i found it taking a connection, at the request it received, at one for
      files, at a submission, at one whose output is compared, at the comparison, at the end of a request
      for files, at the final check, and at the answer. */
  datatype Tally = Tally(begun: nat, received: nat, dropped: nat, files: nat, graded: nat, comparable: nat,
                         compared: nat, filesSent: nat, checked: nat, answered: nat)

  function TallyOf(s: State, turns: seq<Turn>, i: nat): Tally
    requires IsRun(s, turns)
    decreases |turns|
  {
    if turns == [] then Tally(0, 0, 0, 0, 0, 0, 0, 0, 0, 0)
    else
      var n, u := TallyOf(s, turns[..|turns| - 1], i), Found(s, turns);
      if !IsBy(turns, i, u) then n else Counted(n, u.workers[i].pc, turns[|turns| - 1].choice.service)
  }

  function Counted(n: Tally, pc: Pc, service: Service): Tally {
    match pc
    case Idle => n.(begun := n.begun + 1)
    case Serving =>
      (match service
       case Dropped => n.(received := n.received + 1, dropped := n.dropped + 1)
       case Files => n.(received := n.received + 1, files := n.files + 1)
       case Graded(false) => n.(received := n.received + 1, graded := n.graded + 1)
       case Graded(true) => n.(received := n.received + 1, graded := n.graded + 1, comparable := n.comparable + 1))
    case Comparing => n.(compared := n.compared + 1)
    case HeldDist => n.(filesSent := n.filesSent + 1)
    case HeldCheck => n.(checked := n.checked + 1)
    case HeldCount => n.(answered := n.answered + 1)
    case _ => n
  }

  function One(b: bool): nat {
    if b then 1 else 0
  }

  /** Where everything a worker has begun is. */
  ghost predicate Adds(jobs: nat, w: Worker, n: Tally) {
    var pc := w.pc;
    var receiving := pc.WantSnap? || pc.HeldSnap? || pc.Snapped? || pc.Serving?;
    var comparing := pc.WantAns? || pc.HeldAns? || pc.GotAns? || pc.Comparing?;
    && jobs == w.jobs + n.begun
    && n.begun == n.received + One(receiving)
    && n.received == n.dropped + n.files + n.graded
    && n.files == n.filesSent + One(pc.WantDist? || pc.HeldDist?)
    && n.comparable == n.compared + One(comparing)
    && n.graded == n.checked + One(comparing || pc.WantCheck? || pc.HeldCheck?)
    && n.checked == n.answered + One(Accepted(pc) || pc.Leaving? || pc.WantCount? || pc.HeldCount?)
  }

  lemma MoveAdds(jobs: nat, w: Worker, i: nat, s: State, c: Choice, n: Tally)
    requires WellFormed(s) && WorkerMove(w, i, s, c).Move? && Adds(jobs, w, n)
    ensures Adds(jobs, WorkerMove(w, i, s, c).w, Counted(n, w.pc, c.service))
  {
    hide Booked, TableBehind, CsvBehind, ReadLock, ReadUnlock, TableLock, CsvLock;
    match w.pc
    case Idle =>
    case Serving =>
    case HeldCheck =>
    case _ =>
  }

  /** Every connection a worker has begun was dropped by its client, has had its files, has been answered
      after the final check, or is being served; every submission with an output to compare was compared;
      none is passed over. */
  lemma {:induction false} ConnectionsAreServed(s: State, turns: seq<Turn>, t: State, i: nat)
    requires Initial(s) && IsRun(s, turns) && Play(s, turns) == Some(t)
    ensures |t.workers| == |s.workers|
    ensures i < |s.workers| ==> Adds(s.workers[i].jobs, t.workers[i], TallyOf(s, turns, i))
    decreases |turns|
  {
    hide WorkerMove, Adds, Counted, Play, Step, Initial;
    if turns == [] {
      NothingBegun(s, turns, t, i);
    } else {
      var u, turn := Found(s, turns), turns[|turns| - 1];
      ConnectionsAreServed(s, turns[..|turns| - 1], u, i);
      OthersStay(u, turn, t);
      if IsBy(turns, i, u) {
        MoveAdds(s.workers[i].jobs, u.workers[i], i, u, turn.choice, TallyOf(s, turns[..|turns| - 1], i));
      }
    }
  }

  lemma NothingBegun(s: State, turns: seq<Turn>, t: State, i: nat)
    requires Initial(s) && IsRun(s, turns) && turns == [] && Play(s, turns) == Some(t)
    ensures t == s
    ensures i < |s.workers| ==> Adds(s.workers[i].jobs, t.workers[i], TallyOf(s, turns, i))
  {
  }

  /** The weeks these commands switch to: a name that is empty or too long switches to none. */
  function Weeks(commands: seq<Command>): seq<Week> {
    if commands == [] then []
    else
      var c := commands[|commands| - 1];
      Weeks(commands[..|commands| - 1]) + if c.SetHw? && 1 <= |c.week| <= 31 then [c.week] else []
  }

  /** How often the table was reset, the CSV file changed, a report completed, the counter of records read
      and the class size set. */
  datatype Deeds = Deeds(resets: nat, files: nat, reports: nat, stats: nat, sizes: nat)

  /** What these commands ask for. */
  function Wanted(commands: seq<Command>): Deeds {
    if commands == [] then Deeds(0, 0, 0, 0, 0)
    else
      var n, c := Wanted(commands[..|commands| - 1]), commands[|commands| - 1];
      var switches := One(c.SetHw? && 1 <= |c.week| <= 31);
      Deeds(n.resets + switches, n.files + switches, n.reports + One(c.GetTracker?), n.stats + One(c.GetCsvStat?),
            n.sizes + One(c.SetStudents?))
  }


  function DeedsOf(s: State, turns: seq<Turn>): Deeds
    requires IsRun(s, turns)
    decreases |turns|
  {
    if turns == [] then Deeds(0, 0, 0, 0, 0)
    else
      var n, u := DeedsOf(s, turns[..|turns| - 1]), Found(s, turns);
      if turns[|turns| - 1].ByWorker? then n else Done(n, u.ctl)
  }

  function Done(n: Deeds, ctl: Ctl): Deeds {
    Deeds(n.resets + One(ctl.SwHeldTable?), n.files + One(ctl.SwClosed?), n.reports + One(ctl.GtHeldList?),
          n.stats + One(ctl.CsHeldCsv?), n.sizes + One(ctl.StHeldTable?))
  }

  /** `taken` are the commands taken so far: where they are. */
  ghost predicate CarriedOut(first: seq<Week>, taken: seq<Command>, t: State, n: Deeds) {
    var entering := t.ctl.SwWant? || t.ctl.SwHeld?;
    var resetting := entering || t.ctl.SwSet? || t.ctl.SwDirs? || t.ctl.SwWantTable? || t.ctl.SwHeldTable?;
    var changing := resetting || t.ctl.SwReset? || t.ctl.SwWantCsv? || t.ctl.SwHeldCsv? || t.ctl.SwClosed?;
    && t.hw.hist + (if entering then [t.target] else []) == first + Weeks(taken)
    && Wanted(taken) == Deeds(n.resets + One(resetting), n.files + One(changing),
                              n.reports + One(t.ctl.GtWantTable? || t.ctl.GtHeldTable? || Reporting(t.ctl)),
                              n.stats + One(t.ctl.CsWantCsv? || t.ctl.CsHeldCsv?),
                              n.sizes + One(t.ctl.StWantTable? || t.ctl.StHeldTable?))
  }

  lemma CommandsSnoc(taken: seq<Command>, c: Command)
    ensures Weeks(taken + [c]) == Weeks(taken) + if c.SetHw? && 1 <= |c.week| <= 31 then [c.week] else []
    ensures var (n, switches) := (Wanted(taken), One(c.SetHw? && 1 <= |c.week| <= 31));
            Wanted(taken + [c]) ==
            Deeds(n.resets + switches, n.files + switches, n.reports + One(c.GetTracker?), n.stats + One(c.GetCsvStat?),
                  n.sizes + One(c.SetStudents?))
  {
    assert (taken + [c])[..|taken|] == taken;
  }

  lemma CommandBegins(s: State, t: State)
    requires WellFormed(s) && s.ctl.CtlIdle? && NextCommand(s) == Some(t)
    ensures s.commands != [] && t.commands == s.commands[1..] && t.hw == s.hw
    ensures var c := s.commands[0];
            && (c.SetHw? && 1 <= |c.week| <= 31 ==> t.ctl.SwWant? && t.target == c.week)
            && (c.SetHw? && !(1 <= |c.week| <= 31) ==> t.ctl.CtlIdle?)
            && (c.GetTracker? ==> t.ctl.GtWantTable?)
            && (c.GetCsvStat? ==> t.ctl.CsWantCsv?)
            && (c.SetStudents? ==> t.ctl.StWantTable?)
  {
  }

  lemma NextIsTaken(first: seq<Week>, taken: seq<Command>, s: State, t: State, n: Deeds)
    requires WellFormed(s) && s.ctl.CtlIdle? && NextCommand(s) == Some(t) && CarriedOut(first, taken, s, n)
    ensures s.commands != [] && t.commands == s.commands[1..]
    ensures CarriedOut(first, taken + [s.commands[0]], t, n)
  {
    hide Weeks, Wanted, NextCommand;
    CommandBegins(s, t);
    CommandsSnoc(taken, s.commands[0]);
    assert s.hw.hist + [] == s.hw.hist;
    assert Weeks(taken) + [] == Weeks(taken);
  }

  /** The course of a switch ... */
  function AfterSwitching(ctl: Ctl): Ctl {
    match ctl
    case SwWant => SwHeld case SwHeld => SwSet case SwSet => SwDirs
    case SwDirs => SwWantTable case SwWantTable => SwHeldTable case SwHeldTable => SwReset
    case SwReset => SwWantCsv case SwWantCsv => SwHeldCsv case SwHeldCsv => SwClosed case SwClosed => SwOpened
    case _ => CtlIdle
  }

  lemma SwitchMoves(s: State, c: Choice, t: State)
    requires WellFormed(s) && Switching(s.ctl) && SwitchStep(s, c) == Some(t)
    ensures t.commands == s.commands && t.target == s.target
    ensures t.hw.hist == if s.ctl.SwHeld? then s.hw.hist + [s.target] else s.hw.hist
    ensures t.ctl == AfterSwitching(s.ctl)
  {
    hide TableLock, CsvLock, Now, Tracker.Empty;
  }

  lemma SwitchGoesOn(first: seq<Week>, taken: seq<Command>, s: State, c: Choice, t: State, n: Deeds)
    requires WellFormed(s) && Switching(s.ctl) && SwitchStep(s, c) == Some(t) && CarriedOut(first, taken, s, n)
    ensures t.commands == s.commands && CarriedOut(first, taken, t, Done(n, s.ctl))
  {
    hide Weeks, Wanted, SwitchStep;
    SwitchMoves(s, c, t);
    assert t.hw.hist + [] == t.hw.hist;
  }

  /** ... and of the other commands. */
  function AfterCommand(ctl: Ctl): Ctl {
    match ctl
    case GtWantTable => GtHeldTable case GtHeldTable => GtWantHw case GtWantHw => GtHeldHw
    case GtHeldHw => GtWantCsv case GtWantCsv => GtHeldCsv case GtHeldCsv => GtWantList
    case GtWantList => GtHeldList
    case CsWantCsv => CsHeldCsv
    case StWantTable => StHeldTable
    case _ => CtlIdle
  }

  lemma CommandMoves(s: State, t: State)
    requires WellFormed(s) && !Switching(s.ctl) && !s.ctl.CtlIdle? && CommandStep(s) == Some(t)
    ensures t.commands == s.commands && t.hw == s.hw
    ensures t.ctl == AfterCommand(s.ctl)
  {
    hide TableLock, CsvLock, ReadLock, Current;
  }

  lemma CommandGoesOn(first: seq<Week>, taken: seq<Command>, s: State, t: State, n: Deeds)
    requires WellFormed(s) && !Switching(s.ctl) && !s.ctl.CtlIdle? && CommandStep(s) == Some(t)
    requires CarriedOut(first, taken, s, n)
    ensures t.commands == s.commands && CarriedOut(first, taken, t, Done(n, s.ctl))
  {
    CommandMoves(s, t);
    hide Weeks, Wanted, CommandStep;
  }

  /** Every command is carried out in its turn: the weeks there were are the first one and those the
      commands switched to, in order; every switch resets the table once and changes the file once,
      and every other command is completed, but for the one under way. */
  lemma {:induction false} CommandsAreCarriedOut(s: State, turns: seq<Turn>, t: State)
    requires Initial(s) && IsRun(s, turns) && Play(s, turns) == Some(t)
    ensures |t.commands| <= |s.commands|
    ensures var k := |s.commands| - |t.commands|;
            t.commands == s.commands[k..] && CarriedOut(s.hw.hist, s.commands[..k], t, DeedsOf(s, turns))
    decreases |turns|
  {
    hide CarriedOut, Play, Step, Initial, SwitchStep, CommandStep, Done;
    if turns == [] {
      NothingDone(s, turns, t);
      assert s.commands[0..] == s.commands && s.commands[..0] == [];
    } else {
      var u, turn := Found(s, turns), turns[|turns| - 1];
      CommandsAreCarriedOut(s, turns[..|turns| - 1], u);
      var k, n := |s.commands| - |u.commands|, DeedsOf(s, turns[..|turns| - 1]);
      OthersStay(u, turn, t);
      if turn.ByWorker? {
        SameControl(s.hw.hist, s.commands[..k], u, t, n);
      } else {
        StepByCtl(u, turn, t);
        CtlCarriesOut(s.hw.hist, s.commands[..k], u, turn.choice, t, n);
        if u.ctl.CtlIdle? {
          assert s.commands[..k] + [u.commands[0]] == s.commands[..k + 1];
          assert s.commands[k..][1..] == s.commands[k + 1..];
        }
      }
    }
  }

  lemma NothingDoneIdle(n: Deeds)
    ensures Done(n, CtlIdle) == n
  {
  }

  lemma CtlCarriesOut(first: seq<Week>, taken: seq<Command>, s: State, c: Choice, t: State, n: Deeds)
    requires WellFormed(s) && CtlStep(s, c) == Some(t) && CarriedOut(first, taken, s, n)
    ensures if s.ctl.CtlIdle? then
              && s.commands != [] && t.commands == s.commands[1..]
              && CarriedOut(first, taken + [s.commands[0]], t, Done(n, s.ctl))
            else t.commands == s.commands && CarriedOut(first, taken, t, Done(n, s.ctl))
  {
    hide CarriedOut, SwitchStep, NextCommand, Done;
    if Switching(s.ctl) {
      SwitchGoesOn(first, taken, s, c, t, n);
    } else if s.ctl.CtlIdle? {
      NextIsTaken(first, taken, s, t, n);
      NothingDoneIdle(n);
    } else {
      CommandGoesOn(first, taken, s, t, n);
    }
  }

  lemma SameControl(first: seq<Week>, taken: seq<Command>, s: State, t: State, n: Deeds)
    requires CarriedOut(first, taken, s, n) && t.hw == s.hw && t.ctl == s.ctl && t.target == s.target
    ensures CarriedOut(first, taken, t, n)
  {
  }

  lemma NothingDone(s: State, turns: seq<Turn>, t: State)
    requires Initial(s) && IsRun(s, turns) && turns == [] && Play(s, turns) == Some(t)
    ensures t == s && CarriedOut(s.hw.hist, [], t, DeedsOf(s, turns))
  {
    assert s.hw.hist + [] == s.hw.hist;
  }

  // ------------------------------------------------------------------------------- who has to wait

  /** A worker waits exactly for a connection, for a writer of hw_lock (or one before it, where writers go
      first), or for the owner of a mutex; readers never wait for each other. */
  lemma WorkersWaitExactly(s: State, i: nat, c: Choice)
    requires WellFormed(s) && i < |s.workers|
    ensures var (pc, locks) := (s.workers[i].pc, s.locks);
            Step(s, ByWorker(i, c)).Some? <==>
              && (pc.Idle? ==> s.workers[i].jobs > 0)
              && (pc.WantSnap? || pc.WantDist? || pc.WantAns? || pc.WantCheck? ==>
                    !locks.hwWriter && !(s.writerFirst && s.ctl.SwWant?))
              && (pc.WantTable? || pc.WantCount? ==> locks.table.None?)
              && (pc.WantCsv? ==> locks.csv.None?)
  {
    hide Booked, TableBehind, CsvBehind, ReadUnlock;
  }

  /** The control thread waits exactly for a command, for readers and writers of hw_lock, or for the owner
      of a mutex. */
  lemma ControlWaitsExactly(s: State, c: Choice)
    requires WellFormed(s)
    ensures var (ctl, locks) := (s.ctl, s.locks);
            Step(s, ByCtl(c)).Some? <==>
              && (ctl.CtlIdle? ==> s.commands != [])
              && (ctl.SwWant? ==> !locks.hwWriter && locks.hwReaders == {})
              && (ctl.GtWantHw? ==> !locks.hwWriter)
              && (ctl.SwWantTable? || ctl.GtWantTable? || ctl.GtWantList? || ctl.StWantTable? ==> locks.table.None?)
              && (ctl.SwWantCsv? || ctl.GtWantCsv? || ctl.CsWantCsv? ==> locks.csv.None?)
  {
    hide Tracker.Empty, ReadUnlock;
  }
}
