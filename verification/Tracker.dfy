/** server/server_ctx.c: the table of students, and what it says about the submissions so far. */
module Tracker {
  import opened Wire
  import opened Options

  const MAX_STUDENTS := 512
  const U32_MAX := 0xFFFF_FFFF
  const U16_MAX := 0xFFFF

  datatype Grade = AC | WA | TLE | RE | CE

  // A slot whose id is empty is unused.
  datatype StudentRecord = StudentRecord(id: Text, submitted: bool, best: Grade, count: nat)

  const UNUSED := StudentRecord([], false, AC, 0)

  // ------------------------------------------------------------------- one submission, on values

  datatype Table = Table(slots: seq<StudentRecord>, submitted: nat)

  function Empty(): Table {
    Table(seq(MAX_STUDENTS, i => UNUSED), 0)
  }

  /** The first slot holding the id, looking no further than the first unused slot. An id of 16
      bytes is compared whole with a stored one of at most 15. */
  function Search(slots: seq<StudentRecord>, id: Text): (r: Option<nat>)
    ensures r.Some? ==> r.value < |slots|
  {
    if slots == [] || slots[0].id == [] then None
    else if slots[0].id == id then Some(0)
    else match Search(slots[1..], id)
      case None => None
      case Some(i) => Some(i + 1)
  }

  function FirstUnused(slots: seq<StudentRecord>): (r: Option<nat>)
    ensures r.Some? ==> r.value < |slots|
  {
    if slots == [] then None
    else if slots[0].id == [] then Some(0)
    else match FirstUnused(slots[1..])
      case None => None
      case Some(i) => Some(i + 1)
  }

  function Counted(r: StudentRecord, result: Grade): StudentRecord {
    var c := r.(count := if r.count < U32_MAX then r.count + 1 else r.count);
    if result.AC? && !r.submitted then c.(submitted := true, best := AC)
    else if !result.AC? && !r.best.AC? then c.(best := result)
    else c
  }

  function Reported(r: StudentRecord): nat {
    if r.count > U16_MAX then U16_MAX else r.count
  }

  /** The slot a submission is booked on, prepared: an existing one, or a new one. */
  function Booked(slots: seq<StudentRecord>, id: Text): (r: Option<(nat, StudentRecord)>)
    ensures r.Some? ==> r.value.0 < |slots|
  {
    match Search(slots, id)
    case Some(i) => Some((i, slots[i]))
    case None =>
      match FirstUnused(slots)
      case Some(i) => Some((i, StudentRecord(Truncate(id, MAX_STUDENT_ID), false, WA, 0)))
      case None => None
  }

  function Record(t: Table, id: Text, result: Grade): (Table, nat) {
    match Booked(t.slots, id)
    case None => (t, 0)
    case Some(b) =>
      var r := Counted(b.1, result);
      var solved := result.AC? && !b.1.submitted;
      (Table(t.slots[b.0 := r], if solved then (t.submitted + 1) % 0x1_0000 else t.submitted), Reported(r))
  }

  // ------------------------------------------------------------------------ the table in memory

  class StudentTable {
    const students: array<StudentRecord>
    var submittedCount: nat
    var totalStudents: nat

    ghost predicate Valid()
      reads this, students
    {
      students.Length == MAX_STUDENTS && submittedCount <= U16_MAX
    }

    ghost function Contents(): Table
      reads this, students
    {
      Table(students[..], submittedCount)
    }

    constructor ()
      ensures Valid() && Contents() == Empty() && totalStudents == 0 && fresh(students)
    {
      students := new StudentRecord[MAX_STUDENTS](i => UNUSED);
      submittedCount, totalStudents := 0, 0;
      new;
      assert students[..] == Empty().slots;
    }

    /** The reset a week switch makes: every slot and the solved count, but not the class size. */
    method Reset()
      requires Valid()
      modifies this`submittedCount, students
      ensures Valid() && Contents() == Empty()
    {
      forall i | 0 <= i < students.Length {
        students[i] := UNUSED;
      }
      submittedCount := 0;
      assert students[..] == Empty().slots;
    }

    /** The first loop of ctx_record_submission. */
    method FindStudent(id: Text) returns (found: int)
      requires Valid()
      ensures -1 <= found < MAX_STUDENTS
      ensures Search(students[..], id) == if found == -1 then None else Some(found)
    {
      ghost var slots := students[..];
      var i := 0;
      assert slots[0..] == slots;
      while i < MAX_STUDENTS
        invariant 0 <= i <= MAX_STUDENTS
        invariant Shifted(Search(slots, id), Search(slots[i..], id), i)
      {
        assert slots[i..][0] == students[i] && slots[i..][1..] == slots[i + 1..];
        if students[i].id == [] {
          return -1;
        }
        if students[i].id == id {
          return i;
        }
        i := i + 1;
      }
      found := -1;
    }

    /** The second loop. */
    method FindUnused() returns (found: int)
      requires Valid()
      ensures -1 <= found < MAX_STUDENTS
      ensures FirstUnused(students[..]) == if found == -1 then None else Some(found)
    {
      ghost var slots := students[..];
      var i := 0;
      assert slots[0..] == slots;
      while i < MAX_STUDENTS
        invariant 0 <= i <= MAX_STUDENTS
        invariant Shifted(FirstUnused(slots), FirstUnused(slots[i..]), i)
      {
        assert slots[i..][0] == students[i] && slots[i..][1..] == slots[i + 1..];
        if students[i].id == [] {
          return i;
        }
        i := i + 1;
      }
      found := -1;
    }

    /** ctx_record_submission: the student's number of attempts, or 0 when the table is full. */
    method RecordSubmission(id: Text, result: Grade) returns (current: nat)
      requires Valid()
      modifies this`submittedCount, students
      ensures Valid()
      ensures (Contents(), current) == Record(old(Contents()), id, result)
    {
      ghost var slots := students[..];
      current := 0;
      var found := FindStudent(id);
      if found == -1 {
        found := FindUnused();
        if found != -1 {
          students[found] := StudentRecord(Truncate(id, MAX_STUDENT_ID), false, WA, 0);
        }
      }
      if found != -1 {
        var r := students[found];
        assert Booked(slots, id) == Some((found, r));
        r := r.(count := if r.count < U32_MAX then r.count + 1 else r.count);
        current := if r.count > U16_MAX then U16_MAX else r.count;
        if result.AC? && !r.submitted {
          r := r.(submitted := true, best := AC);
          submittedCount := (submittedCount + 1) % 0x1_0000;
        } else if !result.AC? && !r.best.AC? {
          r := r.(best := result);
        }
        students[found] := r;
        assert students[..] == slots[found := r];
      }
    }
  }

  /** A search from slot i on agrees with the whole search. */
  predicate Shifted(whole: Option<nat>, part: Option<nat>, i: nat) {
    whole == match part case None => None case Some(k) => Some(k + i)
  }

  // --------------------------------------------------------------- what the table says of a run

  // The submissions since the last reset, oldest first.
  type History = seq<(Text, Grade)>

  function After(h: History): Table {
    if h == [] then Empty()
    else Record(After(h[..|h| - 1]), h[|h| - 1].0, h[|h| - 1].1).0
  }

  /** The ids of the table: in order of first submission, as long as there was room. */
  function Roster(h: History): (ids: seq<Text>)
    ensures |ids| <= MAX_STUDENTS
  {
    if h == [] then []
    else
      var ids, id := Roster(h[..|h| - 1]), h[|h| - 1].0;
      if id in ids || |ids| == MAX_STUDENTS then ids else ids + [id]
  }

  function Attempts(h: History, id: Text): nat {
    if h == [] then 0
    else Attempts(h[..|h| - 1], id) + (if h[|h| - 1].0 == id then 1 else 0)
  }

  predicate Solved(h: History, id: Text) {
    (id, AC) in h
  }

  /** The grade of the id's latest submission. */
  function Latest(h: History, id: Text): Grade {
    if h == [] then WA
    else if h[|h| - 1].0 == id then h[|h| - 1].1
    else Latest(h[..|h| - 1], id)
  }

  function Saturated(n: nat, max: nat): nat {
    if n > max then max else n
  }

  function Summary(h: History, id: Text): StudentRecord {
    StudentRecord(id, Solved(h, id), if Solved(h, id) then AC else Latest(h, id), Saturated(Attempts(h, id), U32_MAX))
  }

  function SolvedSet(h: History): set<Text> {
    set id | id in Roster(h) && Solved(h, id)
  }

  /** Table slot by slot as the history says it must be. */
  ghost predicate Describes(t: Table, h: History) {
    && |t.slots| == MAX_STUDENTS
    && (forall i :: 0 <= i < |Roster(h)| ==> t.slots[i] == Summary(h, Roster(h)[i]))
    && (forall i :: |Roster(h)| <= i < MAX_STUDENTS ==> t.slots[i] == UNUSED)
    && t.submitted == |SolvedSet(h)|
  }

  /** What the client sends and the wire carries as a proper C string. */
  predicate ProperId(id: Text) {
    1 <= |id| < MAX_STUDENT_ID
  }

  predicate ProperIds(h: History) {
    forall s | s in h :: ProperId(s.0)
  }

  lemma {:induction false} SearchFinds(slots: seq<StudentRecord>, id: Text, i: nat)
    requires i < |slots| && slots[i].id == id && id != []
    requires forall j :: 0 <= j < i ==> slots[j].id != [] && slots[j].id != id
    ensures Search(slots, id) == Some(i)
    decreases i
  {
    if i > 0 {
      assert slots[0].id != [] && slots[0].id != id;
      SearchFinds(slots[1..], id, i - 1);
    }
  }

  lemma {:induction false} SearchMisses(slots: seq<StudentRecord>, id: Text, n: nat)
    requires n <= |slots| && (n < |slots| ==> slots[n].id == [])
    requires forall j :: 0 <= j < n ==> slots[j].id != [] && slots[j].id != id
    ensures Search(slots, id) == None
    ensures FirstUnused(slots) == if n < |slots| then Some(n) else None
    decreases n
  {
    if n > 0 {
      assert slots[0].id != [] && slots[0].id != id;
      SearchMisses(slots[1..], id, n - 1);
    }
  }

  /** One more submission, as the definitions above see it. */
  lemma Snoc(h: History, id: Text, result: Grade, other: Text)
    ensures var h' := h + [(id, result)];
            && After(h') == Record(After(h), id, result).0
            && Roster(h') == (if id in Roster(h) || |Roster(h)| == MAX_STUDENTS then Roster(h) else Roster(h) + [id])
            && Attempts(h', other) == Attempts(h, other) + (if id == other then 1 else 0)
            && Latest(h', other) == (if id == other then result else Latest(h, other))
            && (Solved(h', other) <==> Solved(h, other) || (id == other && result.AC?))
  {
    var h' := h + [(id, result)];
    assert h'[..|h'| - 1] == h;
  }

  /** The roster has no id twice, and misses an id of the history only when it is full. */
  lemma {:induction false} RosterSound(h: History)
    ensures forall i, j :: 0 <= i < j < |Roster(h)| ==> Roster(h)[i] != Roster(h)[j]
    ensures forall id | id in Roster(h) :: exists s :: s in h && s.0 == id
    ensures |Roster(h)| < MAX_STUDENTS ==> forall s | s in h :: s.0 in Roster(h)
  {
    if h != [] {
      var h0, last := h[..|h| - 1], h[|h| - 1];
      assert h == h0 + [last];
      RosterSound(h0);
      forall id | id in Roster(h) ensures exists s :: s in h && s.0 == id {
        if id in Roster(h0) {
          var s :| s in h0 && s.0 == id;
          assert s in h;
        } else {
          assert last in h && last.0 == id;
        }
      }
    }
  }

  lemma {:induction false} NeverSeen(h: History, id: Text)
    requires forall s | s in h :: s.0 != id
    ensures Attempts(h, id) == 0
  {
    if h != [] {
      assert h[|h| - 1] in h;
      NeverSeen(h[..|h| - 1], id);
    }
  }

  /** Where the next submission of id goes in a table that describes h. */
  lemma BookedWhere(t: Table, h: History, id: Text)
    requires Describes(t, h) && ProperIds(h) && ProperId(id)
    ensures id in Roster(h) ==>
              exists i :: 0 <= i < |Roster(h)| && Roster(h)[i] == id && Booked(t.slots, id) == Some((i, t.slots[i]))
    ensures id !in Roster(h) && |Roster(h)| < MAX_STUDENTS ==>
              Booked(t.slots, id) == Some((|Roster(h)|, StudentRecord(id, false, WA, 0)))
    ensures id !in Roster(h) && |Roster(h)| == MAX_STUDENTS ==> Booked(t.slots, id) == None
  {
    var ids := Roster(h);
    RosterSound(h);
    forall j | 0 <= j < |ids| ensures t.slots[j].id == ids[j] && ids[j] != [] {
      assert ids[j] in ids;
      var s :| s in h && s.0 == ids[j];
      assert ProperId(s.0);
    }
    if id in ids {
      var i :| 0 <= i < |ids| && ids[i] == id;
      SearchFinds(t.slots, id, i);
    } else {
      SearchMisses(t.slots, id, |ids|);
    }
  }

  lemma {:induction false} LatestUnsolved(h: History, id: Text)
    requires !Solved(h, id)
    ensures !Latest(h, id).AC?
  {
    if h != [] {
      assert h[|h| - 1] in h;
      LatestUnsolved(h[..|h| - 1], id);
    }
  }

  lemma SummaryStep(h: History, id: Text, result: Grade)
    ensures Counted(Summary(h, id), result) == Summary(h + [(id, result)], id)
    ensures (forall s | s in h :: s.0 != id) ==>
              Counted(StudentRecord(id, false, WA, 0), result) == Summary(h + [(id, result)], id)
  {
    Snoc(h, id, result, id);
    if !Solved(h, id) {
      LatestUnsolved(h, id);
    }
    if forall s | s in h :: s.0 != id {
      NeverSeen(h, id);
      assert !Solved(h, id);
    }
  }

  lemma SummaryKept(h: History, id: Text, result: Grade, other: Text)
    requires other != id
    ensures Summary(h + [(id, result)], other) == Summary(h, other)
  {
    Snoc(h, id, result, other);
  }

  lemma {:induction false} SetOfSeqSize(ids: seq<Text>, s: set<Text>)
    requires forall id | id in s :: id in ids
    ensures |s| <= |ids|
  {
    if ids != [] {
      var n := |ids| - 1;
      assert ids == ids[..n] + [ids[n]];
      SetOfSeqSize(ids[..n], s - {ids[n]});
    } else {
      assert s == {};
    }
  }

  lemma InSolvedSet(h: History, id: Text)
    ensures id in SolvedSet(h) <==> id in Roster(h) && Solved(h, id)
  {
  }

  lemma SolverIsListed(h: History, id: Text, result: Grade, other: Text)
    ensures var h' := h + [(id, result)];
            other in SolvedSet(h') <==> other in SolvedSet(h) || (result.AC? && other == id && id in Roster(h'))
  {
    var h' := h + [(id, result)];
    Snoc(h, id, result, other);
    InSolvedSet(h, other);
    InSolvedSet(h', other);
    RosterSound(h);
    if Solved(h, other) && other !in Roster(h) {
      assert (other, AC) in h;
    }
    hide SolvedSet, Roster, Solved, After, Attempts, Latest;
  }

  lemma SolvedSetStep(h: History, id: Text, result: Grade)
    ensures var h' := h + [(id, result)];
            SolvedSet(h') == if result.AC? && id in Roster(h') then SolvedSet(h) + {id} else SolvedSet(h)
    ensures |SolvedSet(h)| <= MAX_STUDENTS
  {
    forall id | id in SolvedSet(h) ensures id in Roster(h) {
      InSolvedSet(h, id);
    }
    hide SolvedSet, Roster, Solved;
    SetOfSeqSize(Roster(h), SolvedSet(h));
    forall other {
      SolverIsListed(h, id, result, other);
    }
  }

  /** One submission keeps the table in step with the history, and the number it returns is the
      student's attempts so far, or 0 for a student the full table has no room for. */
  lemma RecordStep(t: Table, h: History, id: Text, result: Grade)
    requires Describes(t, h) && ProperIds(h) && ProperId(id)
    ensures var h' := h + [(id, result)];
            && Describes(Record(t, id, result).0, h')
            && Record(t, id, result).1 == (if id in Roster(h') then Saturated(Attempts(h', id), U16_MAX) else 0)
  {
    BookedWhere(t, h, id);
    if id in Roster(h) || |Roster(h)| < MAX_STUDENTS {
      var b := Booked(t.slots, id).value;
      RosterSound(h);
      BookedStep(t, h, id, result, b.0, b.1);
    } else {
      FullStep(t, h, id, result);
    }
  }

  lemma BookedStep(t: Table, h: History, id: Text, result: Grade, at: nat, r: StudentRecord)
    requires Describes(t, h) && Booked(t.slots, id) == Some((at, r))
    requires at <= |Roster(h)| && at < MAX_STUDENTS
    requires forall i :: 0 <= i < |Roster(h)| && i != at ==> Roster(h)[i] != id
    requires if at < |Roster(h)| then Roster(h)[at] == id && r == t.slots[at]
             else (forall s | s in h :: s.0 != id) && r == StudentRecord(id, false, WA, 0)
    ensures var h' := h + [(id, result)];
            && Describes(Record(t, id, result).0, h')
            && id in Roster(h') && Record(t, id, result).1 == Saturated(Attempts(h', id), U16_MAX)
  {
    hide Summary, Counted, Booked, SolvedSet, Roster, Solved, Attempts;
    var h', ids := h + [(id, result)], Roster(h);
    var t' := Record(t, id, result).0;
    Snoc(h, id, result, id);
    RosterSound(h);
    SolvedSetStep(h, id, result);
    SummaryStep(h, id, result);
    assert at == |ids| ==> id !in ids;
    assert Roster(h')[at] == id && Counted(r, result) == Summary(h', id);
    SolvedWhen(h, id, r);
    ReportedIs(h', id);
    forall i | 0 <= i < |Roster(h')|
      ensures t'.slots[i] == Summary(h', Roster(h')[i])
    {
      if i != at {
        assert Roster(h')[i] == ids[i] && ids[i] != id;
        SummaryKept(h, id, result, ids[i]);
      }
    }
    assert t'.slots == t.slots[at := Counted(r, result)];
    forall i | |Roster(h')| <= i < MAX_STUDENTS ensures t'.slots[i] == UNUSED {
      assert i != at;
    }
    OneMoreSolved(SolvedSet(h), id, result.AC?);
    assert t'.submitted == |SolvedSet(h')|;
  }

  lemma OneMoreSolved(s: set<Text>, id: Text, solves: bool)
    requires |s| <= MAX_STUDENTS
    ensures |if solves then s + {id} else s| == if solves && id !in s then (|s| + 1) % 0x1_0000 else |s|
  {
    if id in s {
      assert s + {id} == s;
    }
  }

  lemma SolvedWhen(h: History, id: Text, r: StudentRecord)
    requires if id in Roster(h) then r == Summary(h, id)
             else (forall s | s in h :: s.0 != id) && r == StudentRecord(id, false, WA, 0)
    ensures r.submitted <==> id in SolvedSet(h)
  {
  }

  lemma ReportedIs(h: History, id: Text)
    ensures Reported(Summary(h, id)) == Saturated(Attempts(h, id), U16_MAX)
  {
  }

  lemma FullStep(t: Table, h: History, id: Text, result: Grade)
    requires Describes(t, h) && Booked(t.slots, id) == None && id !in Roster(h) && |Roster(h)| == MAX_STUDENTS
    ensures Describes(Record(t, id, result).0, h + [(id, result)])
    ensures id !in Roster(h + [(id, result)]) && Record(t, id, result).1 == 0
  {
    hide Summary, SolvedSet;
    var h', ids := h + [(id, result)], Roster(h);
    Snoc(h, id, result, id);
    SolvedSetStep(h, id, result);
    forall i | 0 <= i < |ids| ensures t.slots[i] == Summary(h', ids[i]) {
      assert ids[i] in ids;
      SummaryKept(h, id, result, ids[i]);
    }
  }

  /** The table is the history, folded: after any run of submissions with proper ids. */
  lemma {:induction false} TableDescribesHistory(h: History)
    requires ProperIds(h)
    ensures Describes(After(h), h) && |After(h).slots| == 512
  {
    if h == [] {
      assert SolvedSet(h) == {};
    } else {
      var h0, last := h[..|h| - 1], h[|h| - 1];
      assert h == h0 + [last] && last in h;
      forall s | s in h0 ensures ProperId(s.0) {
        assert s in h;
      }
      TableDescribesHistory(h0);
      RecordStep(After(h0), h0, last.0, last.1);
    }
  }

  /** What a client is told after its submission: how often it has tried since the reset, or 0
      when the table had no room for it. */
  lemma ReportedAttempts(h: History, id: Text, result: Grade)
    requires ProperIds(h) && ProperId(id)
    ensures var h' := h + [(id, result)];
            Record(After(h), id, result).1 == if id in Roster(h') then Saturated(Attempts(h', id), 65535) else 0
  {
    TableDescribesHistory(h);
    RecordStep(After(h), h, id, result);
  }

  /** The ids in a table that describes a history of proper ids are proper, and used slots come first. */
  lemma UsedSlots(t: Table, h: History)
    requires Describes(t, h) && ProperIds(h)
    ensures forall j :: 0 <= j < |Roster(h)| ==> ProperId(t.slots[j].id)
    ensures forall j :: |Roster(h)| <= j < MAX_STUDENTS ==> t.slots[j].id == []
  {
    RosterSound(h);
    forall j | 0 <= j < |Roster(h)| ensures ProperId(t.slots[j].id) {
      assert Roster(h)[j] in Roster(h);
      var s :| s in h && s.0 == Roster(h)[j];
    }
  }

  /** An empty id leaves its slot looking unused, and a 16-byte id never equals its own stored copy:
      neither is ever counted beyond one. */
  lemma ImproperStartsOver(t: Table, h: History, id: Text, first: Grade, second: Grade)
    requires Describes(t, h) && ProperIds(h) && (id == [] || |id| == MAX_STUDENT_ID)
    ensures Record(Record(t, id, first).0, id, second).1 <= 1
  {
    var n := |Roster(h)|;
    UsedSlots(t, h);
    SearchMisses(t.slots, id, n);
    var slots := Record(t, id, first).0.slots;
    hide Search, FirstUnused, Describes, ProperIds;
    if n < MAX_STUDENTS {
      assert slots == t.slots[n := Counted(StudentRecord(Truncate(id, MAX_STUDENT_ID), false, WA, 0), first)];
      SearchMisses(slots, id, if id == [] then n else n + 1);
    } else {
      assert slots == t.slots;
    }
  }

  /** After any history of proper ids, exactly these ids are recognised when they come again: those
      that are neither empty nor a full 16 bytes, if the table knows them or has room for them. */
  lemma RecognisedAgain(h: History, id: Text, first: Grade, second: Grade)
    requires ProperIds(h) && |id| <= 16
    ensures Record(Record(After(h), id, first).0, id, second).1 == Saturated(Attempts(h, id) + 2, 65535) <==>
            1 <= |id| <= 15 && (id in Roster(h) || |Roster(h)| < 512)
  {
    TableDescribesHistory(h);
    if ProperId(id) {
      var h1 := h + [(id, first)];
      Snoc(h, id, first, id);
      Snoc(h1, id, second, id);
      RecordStep(After(h), h, id, first);
      RecordStep(After(h1), h1, id, second);
    } else {
      ImproperStartsOver(After(h), h, id, first, second);
    }
    hide Record, After, Roster, Attempts, Describes;
  }
}
