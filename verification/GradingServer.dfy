/** The grading server as its threads interleave: any number of workers serving submissions, and
    the control thread switching weeks, with explicit ownership of hw_lock, tracker_lock and
    csv_lock. */
module GradingServer {
  import opened Options
  import Tracker
  import opened Wire

  type Week = string

  // A student's id and the grade of a submission.
  type Result = (Text, Tracker.Grade)

  const U32 := 0x1_0000_0000

  // ------------------------------------------------------------------------------------- threads

  /** Where a worker stands in handle_client and build_and_send_result. Want... is waiting for a
      lock, Held... has just got it. */
  datatype Pc =
    | Idle
    | WantSnap | HeldSnap | Snapped            // the week is copied under a read lock
    | Serving                                  // receive, compile and run
    | WantDist | HeldDist                      // a file request copies the week once more
    | WantAns | HeldAns | GotAns | Comparing   // the answer path is copied, the outputs compared
    | WantCheck | HeldCheck                    // the final read lock, held ...
    | WantTable | HeldTable | Recorded         // ... while the table is updated
    | AtCsv | WantCsv | HeldCsv | Written      // ... and a row is written
    | Leaving                                  // ... until here
    | WantCount | HeldCount                    // the solved count is read for the answer

  /** A worker: the connections it has still to serve, the week it copied (`born` is the number of
      that week in the history of weeks), the answers it copied (week number `read`), the answers the
      verdict was compared with, if it was compared, and the submission's id and grade. */
  datatype Worker = Worker(pc: Pc, jobs: nat, task: Week, born: nat, ans: Week, read: nat, judged: Option<Week>,
                           work: Result)

  datatype Command = SetHw(week: Week) | GetTracker | GetCsvStat | SetStudents

  datatype Ctl =
    | CtlIdle
    | SwWant | SwHeld | SwSet                          // ctx_set_hw: hw_lock for writing
    | SwDirs                                           // directories, no lock
    | SwWantTable | SwHeldTable | SwReset              // tracker_lock
    | SwWantCsv | SwHeldCsv | SwClosed | SwOpened      // csv_lock
    | GtWantTable | GtHeldTable | GtWantHw | GtHeldHw  // CMD_GET_TRACKER
    | GtWantCsv | GtHeldCsv | GtWantList | GtHeldList
    | CsWantCsv | CsHeldCsv                            // CMD_GET_CSV_STAT
    | StWantTable | StHeldTable                        // CMD_SET_STUDENTS

  // ---------------------------------------------------------------------------------- the server

  datatype Locks = Locks(hwWriter: bool, hwReaders: set<nat>, table: Option<nat>, csv: Option<nat>)

  /** `hist` is every value current_hw has had, the last one being its value now. */
  datatype Hw = Hw(hist: seq<Week>, ansPath: Week)

  /** A call of ctx_record_submission: the week it was made for, the week of the answers the verdict
      was compared with, the numbers of the weeks at copy, answer and record time, whether it was
      made between a change of week and the reset that follows, the student and the grade, and the
      number of attempts it returned. */
  datatype Rec = Rec(task: Week, judged: Option<Week>, born: nat, read: nat, at: nat, early: bool,
                     result: Result, told: nat)

  /** The students array; `log` is every record ever made, those from `resetAt` on since the last
      reset. */
  datatype Table = Table(students: Tracker.Table, log: seq<Rec>, resetAt: nat)

  /** A CSV row: its week column, the file it went to, the numbers of those weeks, whether it was
      written between a change of week and the change of file that follows, and the student and the
      grade. */
  datatype Row = Row(week: Week, at: nat, file: Week, fileNo: nat, early: bool, result: Result)

  // What a record and its row have in common.
  type Entry = (Week, Result)

  /** The CSV state: whether the file is open, for which week, the record counter; `rows` is every
      row ever written, `counted` the number of the week whose file was opened last; `lost` is what no
      row was written for, and `opensFailed` counts the opens that failed. */
  datatype Csv = Csv(open: bool, no: nat, total: nat, rows: seq<Row>, counted: nat, lost: seq<Entry>,
                     opensFailed: nat)

  /** What CMD_GET_TRACKER has read for its report: the table at the time of the solved count, the week,
      and the record counter. */
  datatype Seen = Seen(table: Table, week: Week, records: nat)

  datatype State = State(writerFirst: bool, workers: seq<Worker>, ctl: Ctl, commands: seq<Command>,
                         target: Week, locks: Locks, hw: Hw, table: Table, csv: Csv, seen: Seen)

  predicate WellFormed(s: State) {
    s.hw.hist != [] && s.csv.no < |s.hw.hist|
  }

  function Now(hw: Hw): nat
    requires hw.hist != []
  {
    |hw.hist| - 1
  }

  function Current(hw: Hw): Week
    requires hw.hist != []
  {
    hw.hist[|hw.hist| - 1]
  }

  /** What the threads do not decide themselves: what the connection asks for and how far it gets,
      who submitted it and how the program ended, whether the output and the answers could be read and
      are the same, whether the new CSV file opens. */
  datatype Service = Dropped | Files | Graded(compared: bool)
  datatype Choice = Choice(service: Service, result: Result, readable: bool, same: bool, opens: bool)

  // ---------------------------------------------------------------------------------- the steps

  function ReadLock(l: Locks, i: nat, writerWaits: bool): Option<Locks> {
    if l.hwWriter || writerWaits then None else Some(l.(hwReaders := l.hwReaders + {i}))
  }

  function ReadUnlock(l: Locks, i: nat): Locks {
    l.(hwReaders := l.hwReaders - {i})
  }

  function TableLock(l: Locks, i: nat): Option<Locks> {
    if l.table.Some? then None else Some(l.(table := Some(i)))
  }

  function CsvLock(l: Locks, i: nat): Option<Locks> {
    if l.csv.Some? then None else Some(l.(csv := Some(i)))
  }

  /** ctx_record_submission; the record is completed with what it returns. */
  function Booked(table: Table, r: Rec): (t: Table)
    ensures t.resetAt == table.resetAt
  {
    var (students, told) := Tracker.Record(table.students, r.result.0, r.result.1);
    Table(students, table.log + [r.(told := told)], table.resetAt)
  }

  /** What a step of a worker makes of its own state and of what the threads share. */
  datatype Move = Wait | Move(w: Worker, locks: Locks, table: Table, csv: Csv)

  function Locked(w: Worker, locks: Option<Locks>, table: Table, csv: Csv): Move {
    if locks.None? then Wait else Move(w, locks.value, table, csv)
  }

  /** One step of worker i. */
  function WorkerMove(w: Worker, i: nat, s: State, c: Choice): Move
    requires WellFormed(s)
  {
    var (l, table, csv) := (s.locks, s.table, s.csv);
    var writerWaits := s.writerFirst && s.ctl.SwWant?;
    match w.pc
    case Idle =>
      if w.jobs == 0 then Wait else Move(w.(pc := WantSnap, jobs := w.jobs - 1, judged := None), l, table, csv)
    case WantSnap => Locked(w.(pc := HeldSnap), ReadLock(l, i, writerWaits), table, csv)
    case HeldSnap => Move(w.(pc := Snapped, task := Current(s.hw), born := Now(s.hw), read := Now(s.hw)), l, table, csv)
    case Snapped => Move(w.(pc := Serving), ReadUnlock(l, i), table, csv)
    case Serving =>
      var pc := match c.service
                case Dropped => Idle
                case Files => WantDist
                case Graded(compared) => if compared then WantAns else WantCheck;
      Move(w.(pc := pc, work := c.result), l, table, csv)
    case WantDist => Locked(w.(pc := HeldDist), ReadLock(l, i, writerWaits), table, csv)
    case HeldDist => Move(w.(pc := Idle), ReadUnlock(l, i), table, csv)
    case WantAns => Locked(w.(pc := HeldAns), ReadLock(l, i, writerWaits), table, csv)
    case HeldAns => Move(w.(pc := GotAns, ans := s.hw.ansPath, read := Now(s.hw)), l, table, csv)
    case GotAns => Move(w.(pc := Comparing), ReadUnlock(l, i), table, csv)
    // without answers the submission counts as accepted
    case Comparing =>
      Move(w.(pc := WantCheck, judged := if c.readable then Some(w.ans) else None,
              work := (w.work.0, if c.readable && !c.same then Tracker.WA else Tracker.AC)),
           l, table, csv)
    case WantCheck => Locked(w.(pc := HeldCheck), ReadLock(l, i, writerWaits), table, csv)
    case HeldCheck => Move(w.(pc := if Current(s.hw) == w.task then WantTable else Leaving), l, table, csv)
    case WantTable => Locked(w.(pc := HeldTable), TableLock(l, i), table, csv)
    case HeldTable =>
      var r := Rec(w.task, w.judged, w.born, w.read, Now(s.hw), TableBehind(s.ctl), w.work, 0);
      Move(w.(pc := Recorded), l, Booked(table, r), csv)
    case Recorded => Move(w.(pc := AtCsv), l.(table := None), table, csv)
    // csv_fd is looked at without csv_lock
    case AtCsv =>
      if csv.open then Move(w.(pc := WantCsv), l, table, csv)
      else Move(w.(pc := Leaving), l, table, csv.(lost := csv.lost + [(w.task, w.work)]))
    case WantCsv => Locked(w.(pc := HeldCsv), CsvLock(l, i), table, csv)
    case HeldCsv =>
      var row := Row(w.task, Now(s.hw), s.hw.hist[csv.no], csv.no, CsvBehind(s.ctl), w.work);
      Move(w.(pc := Written), l, table,
           if csv.open then csv.(rows := csv.rows + [row], total := (csv.total + 1) % U32)
           else csv.(lost := csv.lost + [(w.task, w.work)]))
    case Written => Move(w.(pc := Leaving), l.(csv := None), table, csv)
    case Leaving => Move(w.(pc := WantCount), ReadUnlock(l, i), table, csv)
    case WantCount => Locked(w.(pc := HeldCount), TableLock(l, i), table, csv)
    case HeldCount => Move(w.(pc := Idle), l.(table := None), table, csv)
  }

  function WorkerStep(s: State, i: nat, c: Choice): (r: Option<State>)
    requires i < |s.workers| && WellFormed(s)
    ensures r.Some? ==> WellFormed(r.value)
  {
    match WorkerMove(s.workers[i], i, s, c)
    case Wait => None
    case Move(w, locks, table, csv) =>
      Some(s.(workers := s.workers[i := w], locks := locks, table := table, csv := csv))
  }

  function CtlLocked(s: State, ctl: Ctl, locks: Option<Locks>): Option<State> {
    if locks.None? then None else Some(s.(ctl := ctl, locks := locks.value))
  }

  /** One step of ctx_set_hw. The control thread's number follows the workers'. */
  function SwitchStep(s: State, c: Choice): (r: Option<State>)
    requires WellFormed(s)
    ensures r.Some? ==> WellFormed(r.value)
  {
    var (l, me) := (s.locks, |s.workers|);
    match s.ctl
    case SwWant =>
      if l.hwWriter || l.hwReaders != {} then None else Some(s.(ctl := SwHeld, locks := l.(hwWriter := true)))
    case SwHeld => Some(s.(ctl := SwSet, hw := Hw(s.hw.hist + [s.target], s.target)))
    case SwSet => Some(s.(ctl := SwDirs, locks := l.(hwWriter := false)))
    case SwDirs => Some(s.(ctl := SwWantTable))
    case SwWantTable => CtlLocked(s, SwHeldTable, TableLock(l, me))
    case SwHeldTable => Some(s.(ctl := SwReset, table := Table(Tracker.Empty(), s.table.log, |s.table.log|)))
    case SwReset => Some(s.(ctl := SwWantCsv, locks := l.(table := None)))
    case SwWantCsv => CtlLocked(s, SwHeldCsv, CsvLock(l, me))
    case SwHeldCsv => Some(s.(ctl := SwClosed, csv := s.csv.(open := false)))
    case SwClosed =>
      var csv := s.csv.(no := Now(s.hw));
      Some(s.(ctl := SwOpened,
              csv := if c.opens then csv.(open := true, total := 0, counted := Now(s.hw))
                     else csv.(opensFailed := csv.opensFailed + 1)))
    case SwOpened => Some(s.(ctl := CtlIdle, locks := l.(csv := None)))
    case _ => None
  }

  /** The next command arrives; a week with an empty or overlong name changes nothing. */
  function NextCommand(s: State): (r: Option<State>)
    requires WellFormed(s)
    ensures r.Some? ==> WellFormed(r.value)
  {
    if s.commands == [] then None
    else
      var t := s.(commands := s.commands[1..]);
      match s.commands[0]
      case SetHw(week) => Some(if 0 < |week| < 32 then t.(ctl := SwWant, target := week) else t)
      case GetTracker => Some(t.(ctl := GtWantTable))
      case GetCsvStat => Some(t.(ctl := CsWantCsv))
      case SetStudents => Some(t.(ctl := StWantTable))
  }

  /** One step of handle_ctl_client outside ctx_set_hw. */
  function CommandStep(s: State): (r: Option<State>)
    requires WellFormed(s)
    ensures r.Some? ==> WellFormed(r.value)
  {
    var (l, me) := (s.locks, |s.workers|);
    match s.ctl
    case CtlIdle => NextCommand(s)
    case GtWantTable => CtlLocked(s, GtHeldTable, TableLock(l, me))
    case GtHeldTable => Some(s.(ctl := GtWantHw, locks := l.(table := None), seen := s.seen.(table := s.table)))
    case GtWantHw => CtlLocked(s, GtHeldHw, ReadLock(l, me, false))
    case GtHeldHw => Some(s.(ctl := GtWantCsv, locks := ReadUnlock(l, me), seen := s.seen.(week := Current(s.hw))))
    case GtWantCsv => CtlLocked(s, GtHeldCsv, CsvLock(l, me))
    case GtHeldCsv =>
      Some(s.(ctl := GtWantList, locks := l.(csv := None), seen := s.seen.(records := s.csv.total)))
    case GtWantList => CtlLocked(s, GtHeldList, TableLock(l, me))
    case GtHeldList => Some(s.(ctl := CtlIdle, locks := l.(table := None)))
    case CsWantCsv => CtlLocked(s, CsHeldCsv, CsvLock(l, me))
    case CsHeldCsv => Some(s.(ctl := CtlIdle, locks := l.(csv := None)))
    case StWantTable => CtlLocked(s, StHeldTable, TableLock(l, me))
    case StHeldTable => Some(s.(ctl := CtlIdle, locks := l.(table := None)))
    case _ => None
  }

  predicate Switching(ctl: Ctl) {
    || ctl.SwWant? || ctl.SwHeld? || ctl.SwSet? || ctl.SwDirs? || ctl.SwWantTable? || ctl.SwHeldTable?
    || ctl.SwReset? || ctl.SwWantCsv? || ctl.SwHeldCsv? || ctl.SwClosed? || ctl.SwOpened?
  }

  function CtlStep(s: State, c: Choice): (r: Option<State>)
    requires WellFormed(s)
    ensures r.Some? ==> WellFormed(r.value)
  {
    if Switching(s.ctl) then SwitchStep(s, c) else CommandStep(s)
  }

  /** Whose turn it is, and what its step meets. */
  datatype Turn = ByWorker(i: nat, choice: Choice) | ByCtl(choice: Choice)

  function Step(s: State, turn: Turn): (r: Option<State>)
    requires WellFormed(s)
    ensures r.Some? ==> WellFormed(r.value)
  {
    match turn
    case ByWorker(i, c) => if i < |s.workers| then WorkerStep(s, i, c) else None
    case ByCtl(c) => CtlStep(s, c)
  }

  /** Any run: the state after these turns; None when one of them has to wait. */
  function Play(s: State, turns: seq<Turn>): (r: Option<State>)
    requires WellFormed(s)
    ensures r.Some? ==> WellFormed(r.value)
  {
    if turns == [] then Some(s)
    else
      match Play(s, turns[..|turns| - 1])
      case None => None
      case Some(t) => Step(t, turns[|turns| - 1])
  }

  /** After ctx_init: one week, its CSV file open or not, an empty table, workers idle. */
  predicate Initial(s: State) {
    && s.ctl == CtlIdle && |s.hw.hist| == 1 && s.hw.ansPath == s.hw.hist[0]
    && s.locks == Locks(false, {}, None, None)
    && s.table == Table(Tracker.Empty(), [], 0)
    && s.csv == Csv(s.csv.open, 0, 0, [], 0, [], if s.csv.open then 0 else 1)
    && forall i :: 0 <= i < |s.workers| ==> s.workers[i].pc == Idle
  }

  // ------------------------------------------------------------------------------- the invariant

  /** The submission has passed the final check and holds the read lock since. */
  predicate Accepted(pc: Pc) {
    (pc.WantTable? || pc.HeldTable? || pc.Recorded? || pc.AtCsv? || pc.WantCsv? || pc.HeldCsv? || pc.Written?)
  }

  predicate HoldsHw(pc: Pc) {
    || pc.HeldSnap? || pc.Snapped? || pc.HeldDist? || pc.HeldAns? || pc.GotAns? || pc.HeldCheck?
    || Accepted(pc) || pc.Leaving?
  }

  predicate HoldsTable(pc: Pc) {
    (pc.HeldTable? || pc.Recorded? || pc.HeldCount?)
  }

  predicate HoldsCsv(pc: Pc) {
    (pc.HeldCsv? || pc.Written?)
  }

  predicate CtlHoldsTable(ctl: Ctl) {
    (ctl.SwHeldTable? || ctl.SwReset? || ctl.GtHeldTable? || ctl.GtHeldList? || ctl.StHeldTable?)
  }

  predicate CtlHoldsCsv(ctl: Ctl) {
    (ctl.SwHeldCsv? || ctl.SwClosed? || ctl.SwOpened? || ctl.GtHeldCsv? || ctl.CsHeldCsv?)
  }

  /** The week has changed but the table has not been reset yet. */
  predicate TableBehind(ctl: Ctl) {
    (ctl.SwSet? || ctl.SwDirs? || ctl.SwWantTable? || ctl.SwHeldTable?)
  }

  /** The week has changed but the new CSV file is not in place yet. */
  predicate CsvBehind(ctl: Ctl) {
    TableBehind(ctl) || (ctl.SwReset? || ctl.SwWantCsv? || ctl.SwHeldCsv? || ctl.SwClosed?)
  }

  // Ownership is what the program counters say.

  ghost predicate HwLockSound(s: State) {
    && (forall i :: 0 <= i < |s.workers| ==> (i in s.locks.hwReaders <==> HoldsHw(s.workers[i].pc)))
    && (|s.workers| in s.locks.hwReaders <==> s.ctl.GtHeldHw?)
    && (forall i | i in s.locks.hwReaders :: 0 <= i <= |s.workers|)
    && (s.locks.hwWriter <==> s.ctl.SwHeld? || s.ctl.SwSet?)
    && (s.locks.hwWriter ==> s.locks.hwReaders == {})
  }

  ghost predicate TableLockSound(s: State) {
    && (forall i :: 0 <= i < |s.workers| ==> (s.locks.table == Some(i) <==> HoldsTable(s.workers[i].pc)))
    && (s.locks.table == Some(|s.workers|) <==> CtlHoldsTable(s.ctl))
    && (s.locks.table.Some? ==> 0 <= s.locks.table.value <= |s.workers|)
  }

  ghost predicate CsvLockSound(s: State) {
    && (forall i :: 0 <= i < |s.workers| ==> (s.locks.csv == Some(i) <==> HoldsCsv(s.workers[i].pc)))
    && (s.locks.csv == Some(|s.workers|) <==> CtlHoldsCsv(s.ctl))
    && (s.locks.csv.Some? ==> 0 <= s.locks.csv.value <= |s.workers|)
  }

  /** The worker has copied the week. */
  predicate HasTask(pc: Pc) {
    !(pc.Idle? || pc.WantSnap? || pc.HeldSnap?)
  }

  /** The worker has no verdict yet. */
  predicate Unjudged(pc: Pc) {
    || pc.WantSnap? || pc.HeldSnap? || pc.Snapped? || pc.Serving? || pc.WantDist? || pc.HeldDist?
    || pc.WantAns? || pc.HeldAns? || pc.GotAns? || pc.Comparing?
  }

  /** The week a worker copied is a week there was; an accepted one is the week there is. */
  predicate TaskSound(w: Worker, hist: seq<Week>)
    requires hist != []
  {
    && (HasTask(w.pc) ==> w.born <= w.read < |hist| && hist[w.born] == w.task)
    && (Accepted(w.pc) ==> w.task == hist[|hist| - 1])
  }

  /** A verdict was compared with the answers of week number `read`. */
  predicate VerdictSound(w: Worker, hist: seq<Week>) {
    && (w.pc.GotAns? || w.pc.Comparing? ==> w.read < |hist| && w.ans == hist[w.read])
    && (Unjudged(w.pc) ==> w.judged.None?)
    && (HasTask(w.pc) && w.judged.Some? ==> w.read < |hist| && w.judged.value == hist[w.read])
  }

  predicate RecSound(r: Rec, hist: seq<Week>) {
    && r.born <= r.read <= r.at < |hist|
    && hist[r.born] == r.task == hist[r.at]
    && (r.judged.Some? ==> r.judged.value == hist[r.read])
  }

  predicate RowSound(r: Row, hist: seq<Week>) {
    && r.at < |hist| && r.at == r.fileNo + (if r.early then 1 else 0)
    && hist[r.at] == r.week && hist[r.fileNo] == r.file
  }

  ghost predicate WorkersSound(s: State)
    requires WellFormed(s)
  {
    && s.hw.ansPath == Current(s.hw)
    && (forall i :: 0 <= i < |s.workers| ==> TaskSound(s.workers[i], s.hw.hist))
    && (forall i :: 0 <= i < |s.workers| ==> VerdictSound(s.workers[i], s.hw.hist))
  }

  /** Every record was made for the week current at the time. The table holds those made for the
      current week and not early or, until the reset that follows a change of week, those made for
      the week before. */
  ghost predicate TableSound(s: State)
    requires WellFormed(s)
  {
    && (TableBehind(s.ctl) ==> |s.hw.hist| >= 2)
    && s.table.resetAt <= |s.table.log|
    && (forall k :: 0 <= k < |s.table.log| ==> RecSound(s.table.log[k], s.hw.hist))
    && (forall k :: 0 <= k < |s.table.log| && s.table.log[k].at == Now(s.hw) ==>
          (s.table.log[k].early <==> TableBehind(s.ctl) || k < s.table.resetAt))
    && (forall k :: s.table.resetAt <= k < |s.table.log| ==>
          s.table.log[k].at == Now(s.hw) || (TableBehind(s.ctl) && s.table.log[k].at == Now(s.hw) - 1))
  }

  function Results(log: seq<Rec>): Tracker.History {
    seq(|log|, i requires 0 <= i < |log| => log[i].result)
  }

  /** The students array is what the records since the reset make it. */
  ghost predicate StudentsSound(s: State) {
    && s.table.resetAt <= |s.table.log|
    && s.table.students == Tracker.After(Results(s.table.log[s.table.resetAt..]))
    && (forall k :: s.table.resetAt <= k < |s.table.log| ==>
          s.table.log[k].told ==
          Tracker.Record(Tracker.After(Results(s.table.log[s.table.resetAt..k])),
                         s.table.log[k].result.0, s.table.log[k].result.1).1)
  }

  /** CMD_GET_TRACKER has read the solved count and not yet finished with the students. */
  predicate Reporting(ctl: Ctl) {
    ctl.GtWantHw? || ctl.GtHeldHw? || ctl.GtWantCsv? || ctl.GtHeldCsv? || ctl.GtWantList? || ctl.GtHeldList?
  }

  /** How many rows went to the file of week number `no`. */
  function RowsIn(rows: seq<Row>, no: nat): nat {
    if rows == [] then 0 else RowsIn(rows[..|rows| - 1], no) + if rows[|rows| - 1].fileNo == no then 1 else 0
  }

  /** The counter of records as it was once: before the last rows that were written. */
  ghost predicate WasCounted(csv: Csv, records: nat) {
    exists k :: 0 <= k <= |csv.rows| && CountedAt(csv, records, k)
  }

  predicate CountedAt(csv: Csv, records: nat, k: nat)
    requires k <= |csv.rows|
  {
    records == RowsIn(csv.rows[..k], csv.counted) % U32
  }

  /** While a report is put together, the week stays, and table and file only gain records and rows. */
  ghost predicate ReportSound(s: State)
    requires WellFormed(s)
  {
    && (Reporting(s.ctl) ==>
          && s.seen.table.resetAt == s.table.resetAt <= |s.seen.table.log| && s.seen.table.log <= s.table.log
          && s.seen.table.students == Tracker.After(Results(s.seen.table.log[s.seen.table.resetAt..])))
    && (s.ctl.GtWantCsv? || s.ctl.GtHeldCsv? || s.ctl.GtWantList? || s.ctl.GtHeldList? ==> s.seen.week == Current(s.hw))
    && (s.ctl.GtWantList? || s.ctl.GtHeldList? ==> WasCounted(s.csv, s.seen.records))
  }

  /** The CSV file is the current week's or, until it is changed, that of the week before; the
      counter counts the rows in the file opened last. */
  ghost predicate CsvSound(s: State)
    requires WellFormed(s)
  {
    && (CsvBehind(s.ctl) ==> |s.hw.hist| >= 2)
    && s.csv.no == Now(s.hw) - (if CsvBehind(s.ctl) then 1 else 0)
    && s.csv.total == RowsIn(s.csv.rows, s.csv.counted) % U32
    && s.csv.counted <= s.csv.no && (s.csv.open ==> s.csv.counted == s.csv.no)
    && (s.ctl.SwClosed? ==> !s.csv.open)
    && (s.csv.opensFailed == 0 ==> (s.csv.open <==> !s.ctl.SwClosed?))
    && (forall k :: 0 <= k < |s.csv.rows| ==>
          RowSound(s.csv.rows[k], s.hw.hist) && s.csv.rows[k].fileNo <= s.csv.counted)
  }

  function Total(ws: seq<Worker>, f: Worker -> nat): nat {
    if ws == [] then 0 else f(ws[0]) + Total(ws[1..], f)
  }

  /** What these workers have in hand, each by itself. */
  function InHand(ws: seq<Worker>, f: Worker -> multiset<Entry>): multiset<Entry> {
    if ws == [] then multiset{} else f(ws[0]) + InHand(ws[1..], f)
  }

  /** Between the record and its row. */
  function Pending(w: Worker): multiset<Entry> {
    if w.pc.Recorded? || w.pc.AtCsv? || w.pc.WantCsv? || w.pc.HeldCsv? then multiset{(w.task, w.work)} else multiset{}
  }

  function Records(log: seq<Rec>): (es: multiset<Entry>) {
    multiset(seq(|log|, i requires 0 <= i < |log| => (log[i].task, log[i].result)))
  }

  function Rows(rows: seq<Row>): (es: multiset<Entry>) {
    multiset(seq(|rows|, i requires 0 <= i < |rows| => (rows[i].week, rows[i].result)))
  }

  /** Every record has its row, has lost it, or is about to have it. */
  ghost predicate Conserved(s: State) {
    Records(s.table.log) == Rows(s.csv.rows) + multiset(s.csv.lost) + InHand(s.workers, Pending)
  }

  lemma OneMoreRecord(log: seq<Rec>, r: Rec)
    ensures Records(log + [r]) == Records(log) + multiset{(r.task, r.result)}
  {
    assert seq(|log| + 1, i requires 0 <= i < |log| + 1 => ((log + [r])[i].task, (log + [r])[i].result))
        == seq(|log|, i requires 0 <= i < |log| => (log[i].task, log[i].result)) + [(r.task, r.result)];
  }

  lemma OneMoreRow(rows: seq<Row>, r: Row)
    ensures Rows(rows + [r]) == Rows(rows) + multiset{(r.week, r.result)}
  {
    assert seq(|rows| + 1, i requires 0 <= i < |rows| + 1 => ((rows + [r])[i].week, (rows + [r])[i].result))
        == seq(|rows|, i requires 0 <= i < |rows| => (rows[i].week, rows[i].result)) + [(r.week, r.result)];
  }

  ghost predicate Inv(s: State) {
    && WellFormed(s)
    && HwLockSound(s) && TableLockSound(s) && CsvLockSound(s)
    && WorkersSound(s) && TableSound(s) && StudentsSound(s) && ReportSound(s) && CsvSound(s) && Conserved(s)
  }

  // ------------------------------------------------------------------------------- worker steps

  function Owner(held: bool, holds: bool, owner: Option<nat>, i: nat): Option<nat> {
    if holds then Some(i) else if held then None else owner
  }

  /** What a worker's step does to hw_lock. */
  lemma MoveHwLock(w: Worker, i: nat, s: State, c: Choice, m: Move)
    requires WellFormed(s) && m == WorkerMove(w, i, s, c) && m.Move?
    requires i in s.locks.hwReaders <==> HoldsHw(w.pc)
    ensures m.locks.hwReaders == if HoldsHw(m.w.pc) then s.locks.hwReaders + {i} else s.locks.hwReaders - {i}
    ensures m.locks.hwWriter == s.locks.hwWriter
    ensures HoldsHw(m.w.pc) ==> HoldsHw(w.pc) || !s.locks.hwWriter
  {
    hide TableBehind, CsvBehind, Current, Now;
  }

  lemma MoveTableLock(w: Worker, i: nat, s: State, c: Choice, m: Move)
    requires WellFormed(s) && m == WorkerMove(w, i, s, c) && m.Move?
    requires s.locks.table == Some(i) <==> HoldsTable(w.pc)
    ensures m.locks.table == Owner(HoldsTable(w.pc), HoldsTable(m.w.pc), s.locks.table, i)
    ensures HoldsTable(m.w.pc) ==> HoldsTable(w.pc) || s.locks.table.None?
  {
    hide TableBehind, CsvBehind, Current, Now;
    match w.pc
    case WantTable =>
    case HeldTable =>
    case Recorded =>
    case WantCount =>
    case HeldCount =>
    case _ =>
      assert m.locks.table == s.locks.table && !HoldsTable(m.w.pc);
  }

  lemma MoveCsvLock(w: Worker, i: nat, s: State, c: Choice, m: Move)
    requires WellFormed(s) && m == WorkerMove(w, i, s, c) && m.Move?
    requires s.locks.csv == Some(i) <==> HoldsCsv(w.pc)
    ensures m.locks.csv == Owner(HoldsCsv(w.pc), HoldsCsv(m.w.pc), s.locks.csv, i)
    ensures HoldsCsv(m.w.pc) ==> HoldsCsv(w.pc) || s.locks.csv.None?
  {
    hide TableBehind, CsvBehind, Current, Now;
    match w.pc
    case WantCsv =>
    case HeldCsv =>
    case Written =>
    case _ =>
      assert m.locks.csv == s.locks.csv && !HoldsCsv(m.w.pc);
  }

  lemma MoveTask(w: Worker, i: nat, s: State, c: Choice, m: Move)
    requires WellFormed(s) && m == WorkerMove(w, i, s, c) && m.Move?
    requires TaskSound(w, s.hw.hist)
    ensures TaskSound(m.w, s.hw.hist)
  {
    hide TableBehind, CsvBehind, ReadLock, ReadUnlock, TableLock, CsvLock;
  }

  lemma MoveVerdict(w: Worker, i: nat, s: State, c: Choice, m: Move)
    requires WellFormed(s) && m == WorkerMove(w, i, s, c) && m.Move?
    requires VerdictSound(w, s.hw.hist) && s.hw.ansPath == Current(s.hw)
    ensures VerdictSound(m.w, s.hw.hist)
  {
    hide TableBehind, CsvBehind, ReadLock, ReadUnlock, TableLock, CsvLock;
  }

  /** A worker's step makes at most one record, and a sound one. */
  lemma MoveTable(w: Worker, i: nat, s: State, c: Choice, m: Move)
    requires WellFormed(s) && m == WorkerMove(w, i, s, c) && m.Move?
    requires TaskSound(w, s.hw.hist) && VerdictSound(w, s.hw.hist)
    ensures m.table.resetAt == s.table.resetAt
    ensures if w.pc.HeldTable? then
              exists r :: m.table == Booked(s.table, r) && RecSound(r, s.hw.hist) &&
                          r.at == Now(s.hw) && r.early == TableBehind(s.ctl)
            else m.table == s.table
  {
    hide TableBehind, CsvBehind, ReadLock, ReadUnlock, TableLock, CsvLock, Booked;
  }

  lemma BookedLog(table: Table, r: Rec)
    ensures |Booked(table, r).log| == |table.log| + 1 && Booked(table, r).log[..|table.log|] == table.log
    ensures Booked(table, r).resetAt == table.resetAt
    ensures Booked(table, r).log == table.log + [r.(told := Tracker.Record(table.students, r.result.0, r.result.1).1)]
  {
    hide Tracker.Record;
  }

  /** A worker's step writes at most one row, and a sound one. */
  lemma MoveCsv(w: Worker, i: nat, s: State, c: Choice, m: Move)
    requires WellFormed(s) && m == WorkerMove(w, i, s, c) && m.Move?
    requires TaskSound(w, s.hw.hist)
    requires s.csv.no == Now(s.hw) - if CsvBehind(s.ctl) then 1 else 0
    ensures m.csv.open == s.csv.open && m.csv.no == s.csv.no && m.csv.counted == s.csv.counted
    ensures m.csv.opensFailed == s.csv.opensFailed
    ensures (m.csv.rows == s.csv.rows && m.csv.total == s.csv.total) ||
            (s.csv.open && m.csv.total == (s.csv.total + 1) % U32 &&
             exists r :: m.csv.rows == s.csv.rows + [r] && RowSound(r, s.hw.hist) && r.fileNo == s.csv.no)
  {
    hide TableBehind, CsvBehind, ReadLock, ReadUnlock, TableLock, CsvLock, Booked;
  }

  /** A record makes something pending, ... */
  lemma MoveToPending(w: Worker, i: nat, s: State, c: Choice, m: Move)
    requires WellFormed(s) && m == WorkerMove(w, i, s, c) && m.Move? && w.pc.HeldTable?
    ensures |m.table.log| == |s.table.log| + 1 && m.table.log == s.table.log + [m.table.log[|s.table.log|]]
    ensures (m.table.log[|s.table.log|].task, m.table.log[|s.table.log|].result) == (w.task, w.work)
    ensures m.csv == s.csv && Pending(w) == multiset{} && Pending(m.w) == multiset{(w.task, w.work)}
  {
    hide TableBehind, CsvBehind, Current, Now, Tracker.Record;
  }

  /** ... which is then lost or written; */
  lemma MoveFromPending(w: Worker, i: nat, s: State, c: Choice, m: Move)
    requires WellFormed(s) && m == WorkerMove(w, i, s, c) && m.Move?
    requires w.pc.HeldCsv? || (w.pc.AtCsv? && !s.csv.open)
    ensures m.table == s.table && Pending(w) == multiset{(w.task, w.work)} && Pending(m.w) == multiset{}
    ensures if s.csv.open then
              && m.csv.lost == s.csv.lost
              && |m.csv.rows| == |s.csv.rows| + 1 && m.csv.rows == s.csv.rows + [m.csv.rows[|s.csv.rows|]]
              && (m.csv.rows[|s.csv.rows|].week, m.csv.rows[|s.csv.rows|].result) == (w.task, w.work)
            else m.csv.rows == s.csv.rows && m.csv.lost == s.csv.lost + [(w.task, w.work)]
  {
    hide TableBehind, CsvBehind, Current, Now, Booked;
  }

  /** ... no other step touches it. */
  lemma MovePendingNot(w: Worker, i: nat, s: State, c: Choice, m: Move)
    requires WellFormed(s) && m == WorkerMove(w, i, s, c) && m.Move?
    requires !w.pc.HeldTable? && !w.pc.HeldCsv? && !(w.pc.AtCsv? && !s.csv.open)
    ensures m.table == s.table && m.csv == s.csv && Pending(m.w) == Pending(w)
  {
    hide TableBehind, CsvBehind, ReadLock, ReadUnlock, TableLock, CsvLock, Current, Now, Booked;
  }

  /** What a worker's step moves between the log, the rows, what is lost and its own hands. */
  lemma MoveConserves(w: Worker, i: nat, s: State, c: Choice, m: Move)
    requires WellFormed(s) && m == WorkerMove(w, i, s, c) && m.Move?
    ensures Records(m.table.log) + (Rows(s.csv.rows) + multiset(s.csv.lost) + Pending(w))
         == Records(s.table.log) + (Rows(m.csv.rows) + multiset(m.csv.lost) + Pending(m.w))
  {
    hide WorkerMove, Pending, Records, Rows;
    if w.pc.HeldTable? {
      MoveToPending(w, i, s, c, m);
      OneMoreRecord(s.table.log, m.table.log[|s.table.log|]);
    } else if w.pc.HeldCsv? || (w.pc.AtCsv? && !s.csv.open) {
      MoveFromPending(w, i, s, c, m);
      if s.csv.open {
        OneMoreRow(s.csv.rows, m.csv.rows[|s.csv.rows|]);
      }
    } else {
      MovePendingNot(w, i, s, c, m);
    }
  }

  /** Books that balance before a step and over it balance after it. */
  lemma Balance<T>(r: multiset<T>, b: multiset<T>, l: multiset<T>, h: multiset<T>, p: multiset<T>,
                   r': multiset<T>, b': multiset<T>, l': multiset<T>, h': multiset<T>, p': multiset<T>)
    requires r == b + l + h && r' + (b + l + p) == r + (b' + l' + p') && h' + p == h + p'
    ensures r' == b' + l' + h'
  {
    forall x ensures r'[x] == (b' + l' + h')[x] {
      assert r[x] == b[x] + l[x] + h[x];
      assert (r' + (b + l + p))[x] == r'[x] + b[x] + l[x] + p[x];
      assert (r + (b' + l' + p'))[x] == r[x] + b'[x] + l'[x] + p'[x];
      assert (h' + p)[x] == h'[x] + p[x] && (h + p')[x] == h[x] + p'[x];
    }
  }

  lemma {:induction false} TotalUpdate(ws: seq<Worker>, i: nat, w: Worker, f: Worker -> nat)
    requires i < |ws|
    ensures Total(ws[i := w], f) == Total(ws, f) - f(ws[i]) + f(w)
  {
    var vs := ws[i := w];
    if i == 0 {
      assert vs[1..] == ws[1..];
    } else {
      assert vs[1..] == ws[1..][i - 1 := w];
      TotalUpdate(ws[1..], i - 1, w, f);
    }
  }

  lemma AddBoth<T>(x: multiset<T>, a: multiset<T>, b: multiset<T>, c: multiset<T>, d: multiset<T>)
    requires a + b == c + d
    ensures (x + a) + b == (x + c) + d
  {
    assert (x + a) + b == x + (a + b);
  }

  lemma {:induction false} InHandUpdate(ws: seq<Worker>, i: nat, w: Worker, f: Worker -> multiset<Entry>)
    requires i < |ws|
    ensures InHand(ws[i := w], f) + f(ws[i]) == InHand(ws, f) + f(w)
  {
    var vs := ws[i := w];
    if i == 0 {
      assert vs[1..] == ws[1..];
    } else {
      assert vs[1..] == ws[1..][i - 1 := w];
      InHandUpdate(ws[1..], i - 1, w, f);
      AddBoth(f(ws[0]), InHand(vs[1..], f), f(ws[i]), InHand(ws[1..], f), f(w));
    }
  }

  lemma {:induction false} NothingInHand(ws: seq<Worker>, f: Worker -> multiset<Entry>)
    requires forall i :: 0 <= i < |ws| ==> f(ws[i]) == multiset{}
    ensures InHand(ws, f) == multiset{}
  {
    if ws != [] {
      NothingInHand(ws[1..], f);
    }
  }

  // ------------------------------------------------------------- every step keeps the invariant

  lemma WorkerKeepsHwLock(s: State, i: nat, c: Choice, t: State)
    requires WellFormed(s) && i < |s.workers| && WorkerStep(s, i, c) == Some(t)
    requires HwLockSound(s)
    ensures HwLockSound(t)
  {
    MoveHwLock(s.workers[i], i, s, c, WorkerMove(s.workers[i], i, s, c));
    hide HoldsHw, WorkerMove;
  }

  lemma WorkerKeepsTableLock(s: State, i: nat, c: Choice, t: State)
    requires WellFormed(s) && i < |s.workers| && WorkerStep(s, i, c) == Some(t)
    requires TableLockSound(s)
    ensures TableLockSound(t)
  {
    MoveTableLock(s.workers[i], i, s, c, WorkerMove(s.workers[i], i, s, c));
    hide HoldsTable, CtlHoldsTable, WorkerMove;
  }

  lemma WorkerKeepsCsvLock(s: State, i: nat, c: Choice, t: State)
    requires WellFormed(s) && i < |s.workers| && WorkerStep(s, i, c) == Some(t)
    requires CsvLockSound(s)
    ensures CsvLockSound(t)
  {
    MoveCsvLock(s.workers[i], i, s, c, WorkerMove(s.workers[i], i, s, c));
    hide HoldsCsv, CtlHoldsCsv, WorkerMove;
  }

  lemma WorkerKeepsWorkers(s: State, i: nat, c: Choice, t: State)
    requires WellFormed(s) && i < |s.workers| && WorkerStep(s, i, c) == Some(t)
    requires WorkersSound(s)
    ensures WorkersSound(t)
  {
    MoveTask(s.workers[i], i, s, c, WorkerMove(s.workers[i], i, s, c));
    MoveVerdict(s.workers[i], i, s, c, WorkerMove(s.workers[i], i, s, c));
    hide TaskSound, VerdictSound, WorkerMove;
  }

  lemma WorkerKeepsTable(s: State, i: nat, c: Choice, t: State)
    requires WellFormed(s) && i < |s.workers| && WorkerStep(s, i, c) == Some(t)
    requires WorkersSound(s) && TableSound(s)
    ensures TableSound(t)
  {
    MoveTable(s.workers[i], i, s, c, WorkerMove(s.workers[i], i, s, c));
    hide TaskSound, VerdictSound, WorkerMove, TableBehind, Booked;
    if s.workers[i].pc.HeldTable? {
      var r :| t.table == Booked(s.table, r) && RecSound(r, s.hw.hist) && r.at == Now(s.hw) &&
               r.early == TableBehind(s.ctl);
      BookedLog(s.table, r);
      hide Tracker.Record;
      assert RecSound(t.table.log[|s.table.log|], t.hw.hist);
    }
    hide RecSound;
  }

  lemma BookedKeepsStudents(table: Table, r: Rec)
    requires table.resetAt <= |table.log|
    requires table.students == Tracker.After(Results(table.log[table.resetAt..]))
    ensures Booked(table, r).students == Tracker.After(Results(Booked(table, r).log[table.resetAt..]))
    ensures var log := Booked(table, r).log;
            log[|table.log|].told ==
            Tracker.Record(Tracker.After(Results(log[table.resetAt..|table.log|])), r.result.0, r.result.1).1
  {
    hide Tracker.Record, Tracker.After, Tracker.Roster, Tracker.Attempts, Tracker.Latest, Tracker.Solved;
    var recent, log := table.log[table.resetAt..], Booked(table, r).log;
    var r' := log[|table.log|];
    assert log[table.resetAt..] == recent + [r'] && log[table.resetAt..|table.log|] == recent;
    assert Results(recent + [r']) == Results(recent) + [r.result];
    hide Results;
    Tracker.Snoc(Results(recent), r.result.0, r.result.1, r.result.0);
  }

  lemma BookedIsSound(s: State, r: Rec, t: State)
    requires StudentsSound(s) && t.table == Booked(s.table, r)
    ensures StudentsSound(t)
  {
    hide Tracker.Record, Tracker.After, Results;
    BookedKeepsStudents(s.table, r);
    BookedLog(s.table, r);
    hide Booked;
    forall k | s.table.resetAt <= k < |s.table.log|
      ensures t.table.log[k] == s.table.log[k] && t.table.log[s.table.resetAt..k] == s.table.log[s.table.resetAt..k]
    {
    }
  }

  lemma WorkerKeepsStudents(s: State, i: nat, c: Choice, t: State)
    requires WellFormed(s) && i < |s.workers| && WorkerStep(s, i, c) == Some(t)
    requires WorkersSound(s) && StudentsSound(s)
    ensures StudentsSound(t)
  {
    MoveTable(s.workers[i], i, s, c, WorkerMove(s.workers[i], i, s, c));
    hide TaskSound, VerdictSound, WorkerMove, TableBehind, RecSound, StudentsSound, Booked;
    if s.workers[i].pc.HeldTable? {
      var r :| t.table == Booked(s.table, r);
      BookedIsSound(s, r, t);
    } else {
      SameTable(s, t);
    }
  }

  lemma SameTable(s: State, t: State)
    requires StudentsSound(s) && t.table == s.table
    ensures StudentsSound(t)
  {
    hide Tracker.Record, Tracker.After, Results;
  }

  lemma WorkerKeepsReport(s: State, i: nat, c: Choice, t: State)
    requires WellFormed(s) && i < |s.workers| && WorkerStep(s, i, c) == Some(t)
    requires WorkersSound(s) && ReportSound(s) && CsvSound(s)
    ensures ReportSound(t)
  {
    hide TaskSound, VerdictSound, WorkerMove, TableBehind, CsvBehind, RecSound, RowSound, Results, Reporting, RowsIn;
    hide Tracker.Record, Tracker.After, Booked, WasCounted;
    MoveTable(s.workers[i], i, s, c, WorkerMove(s.workers[i], i, s, c));
    MoveCsv(s.workers[i], i, s, c, WorkerMove(s.workers[i], i, s, c));
    if s.workers[i].pc.HeldTable? {
      var r :| t.table == Booked(s.table, r);
      BookedLog(s.table, r);
    }
    if WasCounted(s.csv, s.seen.records) {
      StillCounted(s.csv, t.csv, s.seen.records);
    }
  }

  lemma StillCounted(csv: Csv, csv': Csv, records: nat)
    requires WasCounted(csv, records) && csv'.counted == csv.counted && csv.rows <= csv'.rows
    ensures WasCounted(csv', records)
  {
    hide RowsIn;
    var k :| 0 <= k <= |csv.rows| && CountedAt(csv, records, k);
    assert csv'.rows[..k] == csv.rows[..k];
    assert CountedAt(csv', records, k);
  }

  lemma RowsInSnoc(rows: seq<Row>, r: Row, no: nat)
    ensures RowsIn(rows + [r], no) == RowsIn(rows, no) + if r.fileNo == no then 1 else 0
  {
    assert (rows + [r])[..|rows|] == rows;
  }

  /** One more row in the open file. */
  lemma RowKeepsCsv(s: State, t: State, r: Row)
    requires WellFormed(s) && WellFormed(t) && CsvSound(s) && t.hw == s.hw && t.ctl == s.ctl && s.csv.open
    requires t.csv == s.csv.(rows := s.csv.rows + [r], total := (s.csv.total + 1) % U32)
    requires RowSound(r, s.hw.hist) && r.fileNo == s.csv.no
    ensures CsvSound(t)
  {
    hide CsvBehind, RowSound, RowsIn;
    RowsInSnoc(s.csv.rows, r, s.csv.counted);
  }

  lemma WorkerKeepsCsv(s: State, i: nat, c: Choice, t: State)
    requires WellFormed(s) && i < |s.workers| && WorkerStep(s, i, c) == Some(t)
    requires WorkersSound(s) && CsvSound(s)
    ensures CsvSound(t)
  {
    hide TaskSound, VerdictSound, WorkerMove, CsvBehind, RowSound, RowsIn;
    MoveCsv(s.workers[i], i, s, c, WorkerMove(s.workers[i], i, s, c));
    if t.csv.rows != s.csv.rows {
      var r :| t.csv.rows == s.csv.rows + [r] && RowSound(r, s.hw.hist) && r.fileNo == s.csv.no;
      var t' := t.(csv := t.csv.(lost := s.csv.lost));
      hide CsvSound;
      RowKeepsCsv(s, t', r);
      LostIsNoMatter(t', t);
    }
  }

  lemma LostIsNoMatter(s: State, t: State)
    requires WellFormed(s) && CsvSound(s) && t == s.(csv := s.csv.(lost := t.csv.lost))
    ensures WellFormed(t) && CsvSound(t)
  {
    hide CsvBehind, RowSound, RowsIn;
  }

  lemma WorkerKeepsCount(s: State, i: nat, c: Choice, t: State)
    requires WellFormed(s) && i < |s.workers| && WorkerStep(s, i, c) == Some(t)
    requires Conserved(s)
    ensures Conserved(t)
  {
    hide Pending, WorkerMove, Records, Rows, InHand;
    MoveConserves(s.workers[i], i, s, c, WorkerMove(s.workers[i], i, s, c));
    InHandUpdate(s.workers, i, t.workers[i], Pending);
    Balance(Records(s.table.log), Rows(s.csv.rows), multiset(s.csv.lost), InHand(s.workers, Pending),
            Pending(s.workers[i]),
            Records(t.table.log), Rows(t.csv.rows), multiset(t.csv.lost), InHand(t.workers, Pending),
            Pending(t.workers[i]));
  }

  /** What a step of ctx_set_hw does to the locks. */
  lemma SwitchHwLock(s: State, c: Choice, t: State)
    requires WellFormed(s) && SwitchStep(s, c) == Some(t)
    requires |s.workers| in s.locks.hwReaders <==> s.ctl.GtHeldHw?
    requires s.locks.hwWriter <==> s.ctl.SwHeld? || s.ctl.SwSet?
    requires s.locks.hwWriter ==> s.locks.hwReaders == {}
    ensures t.locks.hwReaders
         == if t.ctl.GtHeldHw? then s.locks.hwReaders + {|s.workers|} else s.locks.hwReaders - {|s.workers|}
    ensures t.locks.hwWriter <==> t.ctl.SwHeld? || t.ctl.SwSet?
    ensures t.locks.hwWriter ==> t.locks.hwReaders == {}
  {
  }

  lemma SwitchTableLock(s: State, c: Choice, t: State)
    requires WellFormed(s) && SwitchStep(s, c) == Some(t)
    requires s.locks.table == Some(|s.workers|) <==> CtlHoldsTable(s.ctl)
    ensures t.locks.table == Owner(CtlHoldsTable(s.ctl), CtlHoldsTable(t.ctl), s.locks.table, |s.workers|)
    ensures CtlHoldsTable(t.ctl) ==> CtlHoldsTable(s.ctl) || s.locks.table.None?
  {
    match s.ctl
    case SwWantTable =>
    case SwHeldTable =>
    case SwReset =>
    case _ =>
  }

  lemma SwitchCsvLock(s: State, c: Choice, t: State)
    requires WellFormed(s) && SwitchStep(s, c) == Some(t)
    requires s.locks.csv == Some(|s.workers|) <==> CtlHoldsCsv(s.ctl)
    ensures t.locks.csv == Owner(CtlHoldsCsv(s.ctl), CtlHoldsCsv(t.ctl), s.locks.csv, |s.workers|)
    ensures CtlHoldsCsv(t.ctl) ==> CtlHoldsCsv(s.ctl) || s.locks.csv.None?
  {
    match s.ctl
    case SwWantCsv =>
    case SwHeldCsv =>
    case SwClosed =>
    case SwOpened =>
    case _ =>
  }

  lemma NextCommandLocks(s: State, t: State)
    requires WellFormed(s) && s.ctl.CtlIdle? && NextCommand(s) == Some(t)
    ensures t.locks == s.locks && !CtlHoldsTable(t.ctl) && !CtlHoldsCsv(t.ctl)
    ensures !t.ctl.GtHeldHw? && !t.ctl.SwHeld? && !t.ctl.SwSet?
  {
  }

  /** What a step of another command does to the locks. */
  lemma CommandHwLock(s: State, t: State)
    requires WellFormed(s) && !Switching(s.ctl) && CommandStep(s) == Some(t)
    requires |s.workers| in s.locks.hwReaders <==> s.ctl.GtHeldHw?
    requires s.locks.hwWriter <==> s.ctl.SwHeld? || s.ctl.SwSet?
    requires s.locks.hwWriter ==> s.locks.hwReaders == {}
    ensures t.locks.hwReaders
         == if t.ctl.GtHeldHw? then s.locks.hwReaders + {|s.workers|} else s.locks.hwReaders - {|s.workers|}
    ensures t.locks.hwWriter <==> t.ctl.SwHeld? || t.ctl.SwSet?
    ensures t.locks.hwWriter ==> t.locks.hwReaders == {}
  {
    if s.ctl.CtlIdle? {
      NextCommandLocks(s, t);
    }
    hide NextCommand;
  }

  lemma CommandTableLock(s: State, t: State)
    requires WellFormed(s) && !Switching(s.ctl) && CommandStep(s) == Some(t)
    requires s.locks.table == Some(|s.workers|) <==> CtlHoldsTable(s.ctl)
    ensures t.locks.table == Owner(CtlHoldsTable(s.ctl), CtlHoldsTable(t.ctl), s.locks.table, |s.workers|)
    ensures CtlHoldsTable(t.ctl) ==> CtlHoldsTable(s.ctl) || s.locks.table.None?
  {
    match s.ctl
    case CtlIdle =>
      NextCommandLocks(s, t);
    case GtWantTable =>
    case GtHeldTable =>
    case GtWantList =>
    case GtHeldList =>
    case StWantTable =>
    case StHeldTable =>
    case _ =>
    hide NextCommand;
  }

  lemma CommandCsvLock(s: State, t: State)
    requires WellFormed(s) && !Switching(s.ctl) && CommandStep(s) == Some(t)
    requires s.locks.csv == Some(|s.workers|) <==> CtlHoldsCsv(s.ctl)
    ensures t.locks.csv == Owner(CtlHoldsCsv(s.ctl), CtlHoldsCsv(t.ctl), s.locks.csv, |s.workers|)
    ensures CtlHoldsCsv(t.ctl) ==> CtlHoldsCsv(s.ctl) || s.locks.csv.None?
  {
    match s.ctl
    case CtlIdle =>
      NextCommandLocks(s, t);
    case GtWantCsv =>
    case GtHeldCsv =>
    case CsWantCsv =>
    case CsHeldCsv =>
    case _ =>
    hide NextCommand;
  }

  lemma CtlKeepsHwLock(s: State, c: Choice, t: State)
    requires WellFormed(s) && CtlStep(s, c) == Some(t)
    requires HwLockSound(s)
    ensures HwLockSound(t)
  {
    if Switching(s.ctl) {
      SwitchHwLock(s, c, t);
    } else {
      CommandHwLock(s, t);
    }
    CtlHw(s, c, t);
    hide HoldsHw, SwitchStep, CommandStep;
  }

  lemma CtlKeepsTableLock(s: State, c: Choice, t: State)
    requires WellFormed(s) && CtlStep(s, c) == Some(t)
    requires TableLockSound(s)
    ensures TableLockSound(t)
  {
    if Switching(s.ctl) {
      SwitchTableLock(s, c, t);
    } else {
      CommandTableLock(s, t);
    }
    CtlHw(s, c, t);
    hide HoldsTable, CtlHoldsTable, SwitchStep, CommandStep;
  }

  lemma CtlKeepsCsvLock(s: State, c: Choice, t: State)
    requires WellFormed(s) && CtlStep(s, c) == Some(t)
    requires CsvLockSound(s)
    ensures CsvLockSound(t)
  {
    if Switching(s.ctl) {
      SwitchCsvLock(s, c, t);
    } else {
      CommandCsvLock(s, t);
    }
    CtlHw(s, c, t);
    hide HoldsCsv, CtlHoldsCsv, SwitchStep, CommandStep;
  }

  /** Only the step from SwHeld changes the week, and it finds no reader. */
  lemma CtlHw(s: State, c: Choice, t: State)
    requires WellFormed(s) && CtlStep(s, c) == Some(t)
    ensures t.workers == s.workers && t.table.log == s.table.log
    ensures if s.ctl.SwHeld? then t.hw == Hw(s.hw.hist + [s.target], s.target) && t.ctl.SwSet? else t.hw == s.hw
  {
  }

  lemma CtlTable(s: State, c: Choice, t: State)
    requires WellFormed(s) && CtlStep(s, c) == Some(t)
    ensures t.table == if s.ctl.SwHeldTable? then Table(Tracker.Empty(), s.table.log, |s.table.log|) else s.table
    ensures TableBehind(t.ctl) <==> (TableBehind(s.ctl) && !s.ctl.SwHeldTable?) || s.ctl.SwHeld?
    ensures CsvBehind(t.ctl) <==> (CsvBehind(s.ctl) && !s.ctl.SwClosed?) || s.ctl.SwHeld?
  {
    hide TableLock, CsvLock, ReadLock, ReadUnlock, Now;
  }

  lemma CtlCsv(s: State, c: Choice, t: State)
    requires WellFormed(s) && CtlStep(s, c) == Some(t)
    ensures t.csv.rows == s.csv.rows && t.csv.lost == s.csv.lost
    ensures t.csv.no == if s.ctl.SwClosed? then Now(s.hw) else s.csv.no
    ensures if s.ctl.SwClosed? && c.opens then t.csv.counted == Now(s.hw) && t.csv.total == 0
            else t.csv.counted == s.csv.counted && t.csv.total == s.csv.total
    ensures t.csv.opensFailed == s.csv.opensFailed + if s.ctl.SwClosed? && !c.opens then 1 else 0
    ensures t.csv.open == if s.ctl.SwHeldCsv? then false else if s.ctl.SwClosed? && c.opens then true else s.csv.open
    ensures t.ctl.SwClosed? <==> s.ctl.SwHeldCsv?
  {
    hide TableLock, CsvLock, ReadLock, ReadUnlock, Now;
  }

  /** A verdict is about weeks there were, so one more week does not change it. */
  lemma MoreWeeks(w: Worker, hist: seq<Week>, week: Week)
    requires hist != [] && TaskSound(w, hist) && VerdictSound(w, hist) && !Accepted(w.pc)
    requires !HoldsHw(w.pc)
    ensures TaskSound(w, hist + [week]) && VerdictSound(w, hist + [week])
  {
  }

  lemma CtlKeepsWorkers(s: State, c: Choice, t: State)
    requires WellFormed(s) && CtlStep(s, c) == Some(t)
    requires HwLockSound(s) && WorkersSound(s)
    ensures WorkersSound(t)
  {
    CtlHw(s, c, t);
    if s.ctl.SwHeld? {
      forall i | 0 <= i < |t.workers|
        ensures TaskSound(t.workers[i], t.hw.hist) && VerdictSound(t.workers[i], t.hw.hist)
      {
        assert i !in s.locks.hwReaders;
        MoreWeeks(s.workers[i], s.hw.hist, s.target);
      }
    }
    hide TaskSound, VerdictSound, SwitchStep, CommandStep, HoldsHw;
  }

  lemma CtlKeepsTable(s: State, c: Choice, t: State)
    requires WellFormed(s) && CtlStep(s, c) == Some(t)
    requires TableSound(s)
    ensures TableSound(t)
  {
    CtlHw(s, c, t);
    CtlTable(s, c, t);
    hide SwitchStep, CommandStep;
    if s.ctl.SwHeld? {
      assert !TableBehind(s.ctl);
      hide TableBehind;
    } else {
      hide TableBehind;
    }
  }

  lemma CtlKeepsStudents(s: State, c: Choice, t: State)
    requires WellFormed(s) && CtlStep(s, c) == Some(t)
    requires StudentsSound(s)
    ensures StudentsSound(t)
  {
    CtlTable(s, c, t);
    assert Results([]) == [];
    hide SwitchStep, CommandStep;
  }

  lemma CtlReport(s: State, c: Choice, t: State)
    requires WellFormed(s) && CtlStep(s, c) == Some(t) && Reporting(t.ctl)
    ensures t.table == s.table && t.hw == s.hw && t.csv == s.csv
    ensures if s.ctl.GtHeldTable? then t.seen.table == s.table else Reporting(s.ctl) && t.seen.table == s.seen.table
    ensures t.ctl.GtWantCsv? || t.ctl.GtHeldCsv? || t.ctl.GtWantList? || t.ctl.GtHeldList? ==>
              if s.ctl.GtHeldHw? then t.seen.week == Current(s.hw)
              else t.seen.week == s.seen.week && (s.ctl.GtWantCsv? || s.ctl.GtHeldCsv? || s.ctl.GtWantList?)
    ensures t.ctl.GtWantList? || t.ctl.GtHeldList? ==>
              if s.ctl.GtHeldCsv? then t.seen.records == s.csv.total
              else t.seen.records == s.seen.records && s.ctl.GtWantList?
  {
    hide TableLock, CsvLock, ReadLock, ReadUnlock, Now, Current;
  }

  lemma CtlKeepsReport(s: State, c: Choice, t: State)
    requires WellFormed(s) && CtlStep(s, c) == Some(t)
    requires StudentsSound(s) && ReportSound(s) && CsvSound(s)
    ensures ReportSound(t)
  {
    hide SwitchStep, CommandStep, Results, RowsIn, RowSound, CsvBehind, WasCounted, Tracker.Record, Tracker.After;
    if Reporting(t.ctl) {
      CtlReport(s, c, t);
      CountedNow(s.csv);
    }
  }

  lemma CountedNow(csv: Csv)
    ensures csv.total == RowsIn(csv.rows, csv.counted) % U32 ==> WasCounted(csv, csv.total)
  {
    assert csv.rows[..|csv.rows|] == csv.rows;
    assert CountedAt(csv, RowsIn(csv.rows, csv.counted) % U32, |csv.rows|);
    hide RowsIn;
  }

  lemma CtlKeepsCsv(s: State, c: Choice, t: State)
    requires WellFormed(s) && CtlStep(s, c) == Some(t)
    requires CsvSound(s)
    ensures CsvSound(t)
  {
    CtlHw(s, c, t);
    CtlTable(s, c, t);
    CtlCsv(s, c, t);
    hide SwitchStep, CommandStep, CsvBehind;
    if s.ctl.SwClosed? && c.opens {
      NoneYet(s.csv.rows, Now(s.hw));
    }
  }

  lemma {:induction false} NoneYet(rows: seq<Row>, no: nat)
    requires forall k :: 0 <= k < |rows| ==> rows[k].fileNo < no
    ensures RowsIn(rows, no) == 0
  {
    if rows != [] {
      NoneYet(rows[..|rows| - 1], no);
    }
  }

  lemma CtlKeepsCount(s: State, c: Choice, t: State)
    requires WellFormed(s) && CtlStep(s, c) == Some(t)
    requires Conserved(s)
    ensures Conserved(t)
  {
    CtlHw(s, c, t);
    CtlCsv(s, c, t);
    hide SwitchStep, CommandStep;
  }

  lemma StepKeepsInv(s: State, turn: Turn, t: State)
    requires Inv(s) && Step(s, turn) == Some(t)
    ensures Inv(t)
  {
    match turn
    case ByWorker(i, c) =>
      WorkerKeepsHwLock(s, i, c, t);
      WorkerKeepsTableLock(s, i, c, t);
      WorkerKeepsCsvLock(s, i, c, t);
      WorkerKeepsWorkers(s, i, c, t);
      WorkerKeepsTable(s, i, c, t);
      WorkerKeepsStudents(s, i, c, t);
      WorkerKeepsReport(s, i, c, t);
      WorkerKeepsCsv(s, i, c, t);
      WorkerKeepsCount(s, i, c, t);
      hide *;
    case ByCtl(c) =>
      CtlKeepsHwLock(s, c, t);
      CtlKeepsTableLock(s, c, t);
      CtlKeepsCsvLock(s, c, t);
      CtlKeepsWorkers(s, c, t);
      CtlKeepsTable(s, c, t);
      CtlKeepsStudents(s, c, t);
      CtlKeepsReport(s, c, t);
      CtlKeepsCsv(s, c, t);
      CtlKeepsCount(s, c, t);
      hide *;
  }

  lemma {:induction false} TotalZero(ws: seq<Worker>, f: Worker -> nat)
    requires forall i :: 0 <= i < |ws| ==> f(ws[i]) == 0
    ensures Total(ws, f) == 0
  {
    if ws != [] {
      TotalZero(ws[1..], f);
    }
  }

  lemma NothingAfter()
    ensures Tracker.After([]) == Tracker.Empty()
  {
  }

  lemma InitialInv(s: State)
    requires Initial(s)
    ensures Inv(s)
  {
    hide Tracker.After, Tracker.Record;
    NothingInHand(s.workers, Pending);
    assert Results(s.table.log[0..]) == [];
    assert Tracker.After([]) == Tracker.Empty() by {
      NothingAfter();
    }
  }

  /** Every state of every run keeps the invariant. */
  lemma {:induction false} PlayKeepsInv(s: State, turns: seq<Turn>, t: State)
    requires Initial(s) && WellFormed(s) && Play(s, turns) == Some(t)
    ensures Inv(t)
    decreases |turns|
  {
    if turns == [] {
      InitialInv(s);
    } else {
      var u := Play(s, turns[..|turns| - 1]).value;
      PlayKeepsInv(s, turns[..|turns| - 1], u);
      StepKeepsInv(u, turns[|turns| - 1], t);
    }
  }
}
