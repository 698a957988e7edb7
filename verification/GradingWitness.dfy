/** Runs that show the limits of the grading server's promises. */
module GradingWitness {
  import opened GradingServer
  import opened Options
  import Tracker
  import opened Wire

  const FREE := Locks(false, {}, None, None)

  /** The run `turns` leads from s0 to s. */
  ghost predicate Reached(s0: State, turns: seq<Turn>, s: State) {
    WellFormed(s0) && Play(s0, turns) == Some(s)
  }

  lemma Start(s0: State)
    requires WellFormed(s0)
    ensures Reached(s0, [], s0)
  {
  }

  lemma Go(s0: State, turns: seq<Turn>, s: State, turn: Turn) returns (longer: seq<Turn>, t: State)
    requires Reached(s0, turns, s) && WellFormed(s) && Step(s, turn).Some?
    ensures WellFormed(t) && Reached(s0, longer, t) && Step(s, turn) == Some(t)
  {
    longer, t := turns + [turn], Step(s, turn).value;
    assert longer[..|longer| - 1] == turns;
    hide Step;
  }

  /** A switch of week with no one else moving, up to where the lock is released ... */
  lemma SwitchWeek(s0: State, before: seq<Turn>, s: State, c: Choice) returns (turns: seq<Turn>, t: State)
    requires WellFormed(s) && Reached(s0, before, s)
    requires s.ctl == CtlIdle && s.locks == FREE
    requires s.commands != [] && s.commands[0].SetHw? && 0 < |s.commands[0].week| < 32
    ensures WellFormed(t) && Reached(s0, turns, t)
    ensures var week := s.commands[0].week;
            t == s.(ctl := SwDirs, commands := s.commands[1..], target := week, hw := Hw(s.hw.hist + [week], week))
  {
    hide Reached, WorkerStep;
    turns, t := Go(s0, before, s, ByCtl(c));
    turns, t := Go(s0, turns, t, ByCtl(c));
    turns, t := Go(s0, turns, t, ByCtl(c));
    turns, t := Go(s0, turns, t, ByCtl(c));
  }

  /** ... the reset of the table ... */
  lemma SwitchTable(s0: State, before: seq<Turn>, s: State, c: Choice) returns (turns: seq<Turn>, t: State)
    requires WellFormed(s) && Reached(s0, before, s)
    requires s.ctl == SwDirs && s.locks.table.None?
    ensures WellFormed(t) && Reached(s0, turns, t)
    ensures t == s.(ctl := SwWantCsv, table := Table(Tracker.Empty(), s.table.log, |s.table.log|))
  {
    hide Reached, WorkerStep;
    turns, t := Go(s0, before, s, ByCtl(c));
    turns, t := Go(s0, turns, t, ByCtl(c));
    turns, t := Go(s0, turns, t, ByCtl(c));
    turns, t := Go(s0, turns, t, ByCtl(c));
  }

  /** ... and the change of file. */
  lemma SwitchFile(s0: State, before: seq<Turn>, s: State, c: Choice) returns (turns: seq<Turn>, t: State)
    requires WellFormed(s) && Reached(s0, before, s)
    requires s.ctl == SwWantCsv && s.locks.csv.None? && c.opens
    ensures WellFormed(t) && Reached(s0, turns, t)
    ensures t == s.(ctl := CtlIdle, csv := s.csv.(open := true, no := Now(s.hw), total := 0, counted := Now(s.hw)))
  {
    hide Reached, WorkerStep;
    turns, t := Go(s0, before, s, ByCtl(c));
    turns, t := Go(s0, turns, t, ByCtl(c));
    turns, t := Go(s0, turns, t, ByCtl(c));
    turns, t := Go(s0, turns, t, ByCtl(c));
  }

  /** The single worker copies the week. */
  lemma CopyWeek(s0: State, before: seq<Turn>, s: State, c: Choice) returns (turns: seq<Turn>, t: State)
    requires WellFormed(s) && Reached(s0, before, s)
    requires |s.workers| == 1 && s.workers[0].pc == Idle && s.workers[0].jobs > 0
    requires s.locks == FREE && !s.writerFirst
    ensures WellFormed(t) && Reached(s0, turns, t)
    ensures var w := s.workers[0];
            t == s.(workers := [w.(pc := Serving, jobs := w.jobs - 1, judged := None, task := Current(s.hw),
                                   born := Now(s.hw), read := Now(s.hw))])
  {
    hide Reached, CtlStep;
    turns, t := Go(s0, before, s, ByWorker(0, c));
    turns, t := Go(s0, turns, t, ByWorker(0, c));
    turns, t := Go(s0, turns, t, ByWorker(0, c));
    turns, t := Go(s0, turns, t, ByWorker(0, c));
    assert t.locks.hwReaders == {};
  }

  /** It compares its output with the answers. */
  lemma CompareAnswers(s0: State, before: seq<Turn>, s: State, c: Choice) returns (turns: seq<Turn>, t: State)
    requires WellFormed(s) && Reached(s0, before, s)
    requires |s.workers| == 1 && s.workers[0].pc == Serving
    requires s.locks == FREE && !s.writerFirst && c.service == Graded(true) && c.readable && !c.same
    ensures WellFormed(t) && Reached(s0, turns, t)
    ensures t == s.(workers := [s.workers[0].(pc := WantCheck, ans := s.hw.ansPath, read := Now(s.hw),
                                              judged := Some(s.hw.ansPath), work := (c.result.0, Tracker.WA))])
  {
    hide Reached, CtlStep;
    turns, t := Go(s0, before, s, ByWorker(0, c));
    turns, t := Go(s0, turns, t, ByWorker(0, c));
    turns, t := Go(s0, turns, t, ByWorker(0, c));
    turns, t := Go(s0, turns, t, ByWorker(0, c));
    assert t.locks.hwReaders == {};
    turns, t := Go(s0, turns, t, ByWorker(0, c));
  }

  /** It passes the final check ... */
  lemma PassCheck(s0: State, before: seq<Turn>, s: State, c: Choice) returns (turns: seq<Turn>, t: State)
    requires WellFormed(s) && Reached(s0, before, s)
    requires |s.workers| == 1 && s.workers[0].pc == WantCheck && s.workers[0].task == Current(s.hw)
    requires s.locks == FREE && !s.writerFirst
    ensures WellFormed(t) && Reached(s0, turns, t)
    ensures t == s.(workers := [s.workers[0].(pc := WantTable)], locks := FREE.(hwReaders := {0}))
  {
    hide Reached, CtlStep;
    turns, t := Go(s0, before, s, ByWorker(0, c));
    turns, t := Go(s0, turns, t, ByWorker(0, c));
  }

  /** ... and makes its record. */
  lemma MakeRecord(s0: State, before: seq<Turn>, s: State, c: Choice) returns (turns: seq<Turn>, t: State)
    requires WellFormed(s) && Reached(s0, before, s)
    requires |s.workers| == 1 && s.workers[0].pc == WantTable && s.locks.table.None?
    ensures WellFormed(t) && Reached(s0, turns, t)
    ensures var w := s.workers[0];
            t == s.(workers := [w.(pc := AtCsv)],
                    table := Booked(s.table, Rec(w.task, w.judged, w.born, w.read, Now(s.hw),
                                                 TableBehind(s.ctl), w.work, 0)))
  {
    hide Reached, CtlStep, TableBehind, Booked;
    turns, t := Go(s0, before, s, ByWorker(0, c));
    turns, t := Go(s0, turns, t, ByWorker(0, c));
    turns, t := Go(s0, turns, t, ByWorker(0, c));
  }

  /** It gets to its row ... */
  lemma ReachRow(s0: State, before: seq<Turn>, s: State, c: Choice) returns (turns: seq<Turn>, t: State)
    requires WellFormed(s) && Reached(s0, before, s)
    requires |s.workers| == 1 && s.workers[0].pc == AtCsv && s.csv.open && s.locks.csv.None?
    ensures WellFormed(t) && Reached(s0, turns, t)
    ensures t == s.(workers := [s.workers[0].(pc := HeldCsv)], locks := s.locks.(csv := Some(0)))
  {
    hide Reached, CtlStep, CsvBehind, TableBehind, Booked;
    turns, t := Go(s0, before, s, ByWorker(0, c));
    turns, t := Go(s0, turns, t, ByWorker(0, c));
  }

  /** ... and writes it. */
  lemma WriteRow(s0: State, before: seq<Turn>, s: State, c: Choice) returns (turns: seq<Turn>, t: State)
    requires WellFormed(s) && Reached(s0, before, s)
    requires |s.workers| == 1 && s.workers[0].pc == HeldCsv && s.csv.open
    ensures WellFormed(t) && Reached(s0, turns, t)
    ensures t == s.(workers := [s.workers[0].(pc := Leaving)], locks := s.locks.(csv := None),
                    csv := s.csv.(total := (s.csv.total + 1) % U32, rows := s.csv.rows +
                      [Row(s.workers[0].task, Now(s.hw), s.hw.hist[s.csv.no], s.csv.no, CsvBehind(s.ctl),
                           s.workers[0].work)]))
  {
    hide Reached, CtlStep, CsvBehind, TableBehind, Booked;
    turns, t := Go(s0, before, s, ByWorker(0, c));
    turns, t := Go(s0, turns, t, ByWorker(0, c));
  }

  /** It runs to its end without output to compare. */
  lemma CompareNothing(s0: State, before: seq<Turn>, s: State, c: Choice) returns (turns: seq<Turn>, t: State)
    requires WellFormed(s) && Reached(s0, before, s)
    requires |s.workers| == 1 && s.workers[0].pc == Serving && c.service == Graded(false)
    ensures WellFormed(t) && Reached(s0, turns, t)
    ensures t == s.(workers := [s.workers[0].(pc := WantCheck, work := c.result)])
  {
    hide Reached, CtlStep;
    turns, t := Go(s0, before, s, ByWorker(0, c));
  }

  /** A switch closes the old file before it opens the new one. */
  lemma CloseFile(s0: State, before: seq<Turn>, s: State, c: Choice) returns (turns: seq<Turn>, t: State)
    requires WellFormed(s) && Reached(s0, before, s)
    requires s.ctl == SwWantCsv && s.locks.csv.None?
    ensures WellFormed(t) && Reached(s0, turns, t)
    ensures t == s.(ctl := SwClosed, csv := s.csv.(open := false), locks := s.locks.(csv := Some(|s.workers|)))
  {
    hide Reached, WorkerStep;
    turns, t := Go(s0, before, s, ByCtl(c));
    turns, t := Go(s0, turns, t, ByCtl(c));
  }

  /** With the file closed, no row is written. */
  lemma LoseRow(s0: State, before: seq<Turn>, s: State, c: Choice) returns (turns: seq<Turn>, t: State)
    requires WellFormed(s) && Reached(s0, before, s)
    requires |s.workers| == 1 && s.workers[0].pc == AtCsv && !s.csv.open
    ensures WellFormed(t) && Reached(s0, turns, t)
    ensures t == s.(workers := [s.workers[0].(pc := Leaving)],
                    csv := s.csv.(lost := s.csv.lost + [(s.workers[0].task, s.workers[0].work)]))
  {
    hide Reached, CtlStep;
    turns, t := Go(s0, before, s, ByWorker(0, c));
  }

  /** A server just started in week a, with one submission to come and these switches. */
  function Started(a: Week, switches: seq<Command>): State {
    State(false, [Worker(Idle, 1, "", 0, "", 0, None, NOBODY)], CtlIdle, switches, "", FREE, Hw([a], a),
          Table(Tracker.Empty(), [], 0), Csv(true, 0, 0, [], 0, [], 0),
          Seen(Table(Tracker.Empty(), [], 0), "", 0))
  }

  const NOBODY: Result := ([], Tracker.AC)

  predicate IsName(week: Week) {
    0 < |week| < 32
  }

  /** The record with the number of attempts that recording it in an empty table returns. */
  function FirstRec(r: Rec): Rec {
    r.(told := Tracker.Record(Tracker.Empty(), r.result.0, r.result.1).1)
  }

  /** Switching away and back while a submission is being served lets a verdict that was compared
      with the answers of week b be recorded under week a. */
  lemma AwayAndBack(a: Week, b: Week, id: Text) returns (turns: seq<Turn>, t: State)
    requires IsName(a) && IsName(b) && a != b
    ensures Initial(Started(a, [SetHw(b), SetHw(a)])) && Reached(Started(a, [SetHw(b), SetHw(a)]), turns, t)
    ensures t.table.log == [FirstRec(Rec(a, Some(b), 0, 1, 2, false, (id, Tracker.WA), 0))] && t.table.resetAt == 0
  {
    hide Reached, Play, WorkerStep, CtlStep, Tracker.Record, Tracker.Empty;
    var s0 := Started(a, [SetHw(b), SetHw(a)]);
    var c := Choice(Graded(true), (id, Tracker.AC), true, false, true);
    var w := Worker(Serving, 0, a, 0, "", 0, None, NOBODY);
    Start(s0);
    turns, t := CopyWeek(s0, [], s0, c);
    turns, t := SwitchWeek(s0, turns, t, c);
    turns, t := SwitchTable(s0, turns, t, c);
    turns, t := SwitchFile(s0, turns, t, c);
    assert t == s0.(workers := [w], commands := [SetHw(a)], target := b, hw := Hw([a, b], b),
                    csv := Csv(true, 1, 0, [], 1, [], 0));
    turns, t := CompareAnswers(s0, turns, t, c);
    turns, t := SwitchWeek(s0, turns, t, c);
    turns, t := SwitchTable(s0, turns, t, c);
    turns, t := SwitchFile(s0, turns, t, c);
    assert t == s0.(workers := [w.(pc := WantCheck, ans := b, read := 1, judged := Some(b), work := (id, Tracker.WA))],
                    commands := [], target := a, hw := Hw([a, b, a], a), csv := Csv(true, 2, 0, [], 2, [], 0));
    turns, t := PassCheck(s0, turns, t, c);
    turns, t := MakeRecord(s0, turns, t, c);
  }

  /** A submission of the new week b served before the reset and the change of file: its record is
      wiped from the table and its row stands in the file of week a. */
  lemma EarlyRecordIsWiped(a: Week, b: Week, r: Result) returns (turns: seq<Turn>, t: State)
    requires IsName(a) && IsName(b) && a != b
    ensures Initial(Started(a, [SetHw(b)])) && Reached(Started(a, [SetHw(b)]), turns, t)
    ensures t.table == Table(Tracker.Empty(), [FirstRec(Rec(b, None, 1, 1, 1, true, r, 0))], 1) && !TableBehind(t.ctl)
    ensures t.csv.rows == [Row(b, 1, a, 0, true, r)]
  {
    hide Reached, Play, WorkerStep, CtlStep, Tracker.Record, Tracker.Empty;
    var s0 := Started(a, [SetHw(b)]);
    var c := Choice(Graded(false), r, true, true, true);
    var w := Worker(WantCheck, 0, b, 1, "", 1, None, r);
    Start(s0);
    turns, t := SwitchWeek(s0, [], s0, c);
    turns, t := CopyWeek(s0, turns, t, c);
    turns, t := CompareNothing(s0, turns, t, c);
    assert t == s0.(workers := [w], ctl := SwDirs, commands := [], target := b, hw := Hw([a, b], b));
    turns, t := PassCheck(s0, turns, t, c);
    turns, t := MakeRecord(s0, turns, t, c);
    assert t.table == Table(t.table.students, [FirstRec(Rec(b, None, 1, 1, 1, true, r, 0))], 0);
    hide Booked, FirstRec;
    turns, t := ReachRow(s0, turns, t, c);
    turns, t := WriteRow(s0, turns, t, c);
    turns, t := SwitchTable(s0, turns, t, c);
  }

  /** A submission that looks at csv_fd between the close and the open of a switch gets a record but
      no row, although every open succeeds. */
  lemma RowIsLost(a: Week, b: Week, r: Result) returns (turns: seq<Turn>, t: State)
    requires IsName(a) && IsName(b)
    ensures Initial(Started(a, [SetHw(b)])) && Reached(Started(a, [SetHw(b)]), turns, t)
    ensures t.table.log == [FirstRec(Rec(b, None, 1, 1, 1, false, r, 0))]
    ensures t.csv.rows == [] && t.csv.lost == [(b, r)] && t.csv.opensFailed == 0
  {
    hide Reached, Play, WorkerStep, CtlStep, Tracker.Record, Tracker.Empty;
    var s0 := Started(a, [SetHw(b)]);
    var c := Choice(Graded(false), r, true, true, true);
    var w := Worker(WantCheck, 0, b, 1, "", 1, None, r);
    Start(s0);
    turns, t := SwitchWeek(s0, [], s0, c);
    turns, t := CopyWeek(s0, turns, t, c);
    turns, t := CompareNothing(s0, turns, t, c);
    turns, t := SwitchTable(s0, turns, t, c);
    assert t == s0.(workers := [w], ctl := SwWantCsv, commands := [], target := b, hw := Hw([a, b], b));
    turns, t := PassCheck(s0, turns, t, c);
    turns, t := MakeRecord(s0, turns, t, c);
    turns, t := CloseFile(s0, turns, t, c);
    turns, t := LoseRow(s0, turns, t, c);
  }
}
