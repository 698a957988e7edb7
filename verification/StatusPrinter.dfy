/** server/server.c, CMD_GET_TRACKER: the state of the tracker as text, in a buffer of 8192 bytes. */
module StatusPrinter {
  import opened Bytes
  import opened Wire
  import opened Tracker

  const IPC_MAX_PAYLOAD := 8192
  const MARGIN := 24
  const MAX_WEEK_NAME := 32

  const NL: byte := 10
  const COMMA: byte := 44
  const COLON: byte := 58
  const EQUALS: byte := 61
  const BAR: byte := 124

  const SUBMITTED: Text := [115, 117, 98, 109, 105, 116, 116, 101, 100]
  const TOTAL: Text := [116, 111, 116, 97, 108]
  const WEEK: Text := [119, 101, 101, 107]
  const RECORDS: Text := [114, 101, 99, 111, 114, 100, 115]

  // ------------------------------------------------------------------------------------- the text

  /** %u. */
  function Decimal(n: nat): (s: Text)
    ensures s != [] && forall i :: 0 <= i < |s| ==> 48 <= s[i] < 58
  {
    (if n < 10 then [] else Decimal(n / 10)) + [48 + n % 10]
  }

  function GradeName(g: Grade): (s: Text)
    ensures 2 <= |s| <= 3 && forall i :: 0 <= i < |s| ==> 65 <= s[i] <= 90
  {
    match g
    case AC => [65, 67]
    case WA => [87, 65]
    case TLE => [84, 76, 69]
    case RE => [82, 69]
    case CE => [67, 69]
  }

  function Field(key: Text, value: Text): Text {
    key + [EQUALS] + value + [BAR]
  }

  function Header(submitted: nat, total: nat, week: Text, records: nat): Text {
    Field(SUBMITTED, Decimal(submitted)) + (Field(TOTAL, Decimal(total)) +
      (Field(WEEK, week) + (Field(RECORDS, Decimal(records)) + [NL])))
  }

  function Entry(r: StudentRecord): Text {
    r.id + [COLON] + GradeName(r.best) + [COMMA]
  }

  function Entries(rs: seq<StudentRecord>): Text {
    if rs == [] then [] else Entry(rs[0]) + Entries(rs[1..])
  }

  /** The slots up to the first unused one. */
  function Used(slots: seq<StudentRecord>): seq<StudentRecord> {
    if slots == [] || slots[0].id == [] then [] else [slots[0]] + Used(slots[1..])
  }

  /** The slots the loop gets to, starting at position pos: the used ones, until 24 bytes are left. */
  function Printed(slots: seq<StudentRecord>, pos: nat): seq<StudentRecord> {
    if slots == [] || slots[0].id == [] || pos >= IPC_MAX_PAYLOAD - MARGIN then []
    else [slots[0]] + Printed(slots[1..], pos + |Entry(slots[0])|)
  }

  function Report(submitted: nat, total: nat, week: Text, records: nat, slots: seq<StudentRecord>): Text {
    var header := Header(submitted, total, week, records);
    header + Entries(Printed(slots, |header|))
  }

  /** What the C types of the fields allow. */
  predicate Fits(submitted: nat, total: nat, week: Text, records: nat, slots: seq<StudentRecord>) {
    && submitted < 0x1_0000 && total < 0x1_0000 && records < 0x1_0000_0000
    && |week| < MAX_WEEK_NAME && NoZero(week)
    && forall r | r in slots :: |r.id| < MAX_STUDENT_ID && NoZero(r.id)
  }

  /** In the program's words: the header, ... */
  lemma HeaderIs(submitted: nat, total: nat, week: Text, records: nat)
    ensures Header(submitted, total, week, records) ==
            Ascii("submitted=") + Decimal(submitted) + Ascii("|total=") + Decimal(total) + Ascii("|week=") + week
            + Ascii("|records=") + Decimal(records) + Ascii("|\n")
  {
    HeaderWords();
    hide Decimal, Ascii;
    Joins(SUBMITTED + [EQUALS], Decimal(submitted), [BAR], TOTAL + [EQUALS], Decimal(total), WEEK + [EQUALS], week,
          RECORDS + [EQUALS], Decimal(records), [NL]);
  }

  lemma HeaderWords()
    ensures SUBMITTED + [EQUALS] == Ascii("submitted=") && [BAR] + (TOTAL + [EQUALS]) == Ascii("|total=")
    ensures [BAR] + (WEEK + [EQUALS]) == Ascii("|week=") && [BAR] + (RECORDS + [EQUALS]) == Ascii("|records=")
    ensures [BAR] + [NL] == Ascii("|\n")
  {
  }

  lemma Joins(a: Text, b: Text, bar: Text, c: Text, d: Text, e: Text, f: Text, g: Text, h: Text, nl: Text)
    ensures (a + b + bar) + ((c + d + bar) + ((e + f + bar) + ((g + h + bar) + nl)))
         == a + b + (bar + c) + d + (bar + e) + f + (bar + g) + h + (bar + nl)
  {
  }

  /** ... and the entry of a student. */
  ghost predicate IsEntry(text: Text, r: StudentRecord) {
    && (r.best == AC ==> text == r.id + Ascii(":AC,"))
    && (r.best == WA ==> text == r.id + Ascii(":WA,"))
    && (r.best == TLE ==> text == r.id + Ascii(":TLE,"))
    && (r.best == RE ==> text == r.id + Ascii(":RE,"))
    && (r.best == CE ==> text == r.id + Ascii(":CE,"))
  }

  lemma EntryIs(r: StudentRecord)
    ensures IsEntry(Entry(r), r)
  {
    assert Entry(r) == r.id + ([COLON] + GradeName(r.best) + [COMMA]);
    match r.best
    case AC => assert [COLON] + GradeName(r.best) + [COMMA] == Ascii(":AC,");
    case WA => assert [COLON] + GradeName(r.best) + [COMMA] == Ascii(":WA,");
    case TLE => assert [COLON] + GradeName(r.best) + [COMMA] == Ascii(":TLE,");
    case RE => assert [COLON] + GradeName(r.best) + [COMMA] == Ascii(":RE,");
    case CE => assert [COLON] + GradeName(r.best) + [COMMA] == Ascii(":CE,");
  }

  /** The text is the entries of these students, one after the other. */
  ghost predicate AreEntries(text: Text, rs: seq<StudentRecord>)
    decreases |rs|
  {
    if rs == [] then text == []
    else exists first: Text, rest: Text :: text == first + rest && IsEntry(first, rs[0]) && AreEntries(rest, rs[1..])
  }

  lemma {:induction false} EntriesAre(rs: seq<StudentRecord>)
    ensures AreEntries(Entries(rs), rs)
  {
    if rs != [] {
      EntryIs(rs[0]);
      EntriesAre(rs[1..]);
      hide Entry, IsEntry;
    }
  }

  // ---------------------------------------------------------------------------------- its length

  lemma {:induction false} DecimalLength(n: nat, digits: nat, bound: nat)
    requires n < bound && digits > 0
    requires bound == Power10(digits)
    ensures |Decimal(n)| <= digits
    decreases digits
  {
    if n >= 10 {
      DecimalLength(n / 10, digits - 1, bound / 10);
    }
  }

  function Power10(k: nat): (p: nat)
    ensures p > 0
  {
    if k == 0 then 1 else 10 * Power10(k - 1)
  }

  lemma FieldLengths(submitted: nat, total: nat, records: nat)
    requires submitted < 0x1_0000 && total < 0x1_0000 && records < 0x1_0000_0000
    ensures |Decimal(submitted)| <= 5 && |Decimal(total)| <= 5 && |Decimal(records)| <= 10
  {
    assert Power10(5) == 100000;
    assert Power10(10) == 100000 * Power10(5);
    DecimalLength(submitted, 5, Power10(5));
    DecimalLength(total, 5, Power10(5));
    DecimalLength(records, 10, Power10(10));
  }

  /** The header takes at most 85 bytes. */
  lemma HeaderLength(submitted: nat, total: nat, week: Text, records: nat)
    requires submitted < 0x1_0000 && total < 0x1_0000 && records < 0x1_0000_0000 && |week| < MAX_WEEK_NAME
    ensures |Header(submitted, total, week, records)| <= 85
  {
    FieldLengths(submitted, total, records);
  }

  /** No entry takes more than 20 bytes, so the last one begun still fits. */
  lemma {:induction false} PrintedFits(slots: seq<StudentRecord>, pos: nat)
    requires forall r | r in slots :: |r.id| < MAX_STUDENT_ID
    requires pos < IPC_MAX_PAYLOAD - 4
    ensures pos + |Entries(Printed(slots, pos))| < IPC_MAX_PAYLOAD - 4
  {
    if Printed(slots, pos) != [] {
      assert slots[0] in slots;
      var next := pos + |Entry(slots[0])|;
      assert Printed(slots, pos)[1..] == Printed(slots[1..], next);
      PrintedFits(slots[1..], next);
    }
  }

  /** As long as the students that are left cannot fill the buffer, all of them are printed. */
  lemma {:induction false} AllPrinted(slots: seq<StudentRecord>, pos: nat)
    requires forall r | r in slots :: |r.id| < MAX_STUDENT_ID
    requires Used(slots) != [] ==> pos + 20 * (|Used(slots)| - 1) < IPC_MAX_PAYLOAD - MARGIN
    ensures Printed(slots, pos) == Used(slots)
  {
    if Used(slots) != [] {
      assert slots[0] in slots;
      assert Used(slots)[1..] == Used(slots[1..]);
      AllPrinted(slots[1..], pos + |Entry(slots[0])|);
    }
  }

  /** A student is printed exactly if what stands before it takes less than 8168 bytes. */
  lemma {:induction false} PrintedExactly(slots: seq<StudentRecord>, pos: nat, k: nat)
    requires k < |Used(slots)|
    ensures k < |Printed(slots, pos)| <==> pos + |Entries(Used(slots)[..k])| < 8168
  {
    hide Entry;
    assert Used(slots)[1..] == Used(slots[1..]);
    if k > 0 {
      assert Used(slots)[..k][1..] == Used(slots[1..])[..k - 1];
      PrintedExactly(slots[1..], pos + |Entry(slots[0])|, k - 1);
    }
  }

  lemma {:induction false} PrintedIsPrefix(slots: seq<StudentRecord>, pos: nat)
    ensures Printed(slots, pos) <= Used(slots)
  {
    if Printed(slots, pos) != [] {
      PrintedIsPrefix(slots[1..], pos + |Entry(slots[0])|);
    }
  }

  // ------------------------------------------------------------------------------- the printer

  /** What snprintf(data + pos, |data| - pos, "%s", s) makes of the buffer: as much as fits, and a
      zero after it. */
  function Written(data: seq<byte>, pos: nat, s: Text): seq<byte>
    requires pos < |data|
  {
    var k := if |s| < |data| - pos then |s| else |data| - pos - 1;
    data[..pos] + s[..k] + [0] + data[pos + k + 1..]
  }

  method Snprintf(data: array<byte>, pos: nat, s: Text) returns (n: nat)
    requires pos < data.Length
    modifies data
    ensures n == |s| && data[..] == Written(old(data[..]), pos, s)
  {
    var k := if |s| < data.Length - pos then |s| else data.Length - pos - 1;
    for i := 0 to k
      invariant data[..] == old(data[..pos]) + s[..i] + old(data[pos + i..])
    {
      data[pos + i] := s[i];
    }
    data[pos + k] := 0;
    return |s|;
  }

  /** The buffer holds the text, and zeros after it. */
  ghost predicate Filled(data: seq<byte>, text: Text) {
    |text| <= |data| && data == text + Zeros(|data| - |text|)
  }

  lemma AppendFilled(data: seq<byte>, text: Text, s: Text, more: seq<byte>)
    requires Filled(data, text) && |text| + |s| < |data| && more == Written(data, |text|, s)
    ensures Filled(more, text + s)
  {
    assert data[..|text|] == text;
    assert [0] + data[|text| + |s| + 1..] == Zeros(|data| - |text| - |s|);
  }

  /** The response to CMD_GET_TRACKER: the report, never cut, and zeros after it. */
  method PrintTracker(submitted: nat, total: nat, week: Text, records: nat, slots: seq<StudentRecord>)
    returns (data: array<byte>)
    requires Fits(submitted, total, week, records, slots)
    ensures fresh(data) && data.Length == 8192
    ensures |Report(submitted, total, week, records, slots)| < 8192 - 4
    ensures Filled(data[..], Report(submitted, total, week, records, slots))
    ensures IsReport(data[..], submitted, total, week, records,
                     Printed(slots, |Header(submitted, total, week, records)|))
  {
    hide Header, Filled, Entry, Written, Used, IsReport;
    data := new byte[IPC_MAX_PAYLOAD](i => 0);
    ghost var before := data[..];
    NothingFilled(before);
    ghost var text := Header(submitted, total, week, records);
    HeaderLength(submitted, total, week, records);
    PrintedFits(slots, |text|);
    var pos := Snprintf(data, 0, Header(submitted, total, week, records));
    AppendFilled(before, [], text, data[..]);
    assert [] + text == text;
    var i := 0;
    assert slots[0..] == slots;
    while i < |slots| && pos < IPC_MAX_PAYLOAD - MARGIN
      invariant 0 <= i <= |slots| && pos == |text| < IPC_MAX_PAYLOAD - 4
      invariant text + Entries(Printed(slots[i..], pos)) == Report(submitted, total, week, records, slots)
      invariant Filled(data[..], text)
    {
      if slots[i].id == [] {
        break;
      }
      assert slots[i] in slots;
      EntryLength(slots[i]);
      before := data[..];
      var n := Snprintf(data, pos, Entry(slots[i]));
      AppendFilled(before, text, Entry(slots[i]), data[..]);
      PrintOne(text, slots[i..]);
      assert slots[i..][1..] == slots[i + 1..];
      text := text + Entry(slots[i]);
      pos := pos + n;
      i := i + 1;
    }
    assert Printed(slots[i..], pos) == [];
    assert text + [] == text;
    ReportIsReport(data[..], submitted, total, week, records, slots);
  }

  /** What stands in the buffer: the header, the entries of these students, and zeros. */
  ghost predicate IsReport(data: seq<byte>, submitted: nat, total: nat, week: Text, records: nat,
                           students: seq<StudentRecord>)
  {
    var header := Ascii("submitted=") + Decimal(submitted) + Ascii("|total=") + Decimal(total) + Ascii("|week=") + week
                  + Ascii("|records=") + Decimal(records) + Ascii("|\n");
    exists list: Text ::
      && AreEntries(list, students) && |header| + |list| <= |data|
      && data == header + list + Zeros(|data| - |header| - |list|)
  }

  lemma ReportIsReport(data: seq<byte>, submitted: nat, total: nat, week: Text, records: nat,
                       slots: seq<StudentRecord>)
    requires Filled(data, Report(submitted, total, week, records, slots))
    ensures IsReport(data, submitted, total, week, records, Printed(slots, |Header(submitted, total, week, records)|))
  {
    HeaderIs(submitted, total, week, records);
    EntriesAre(Printed(slots, |Header(submitted, total, week, records)|));
    hide Header, AreEntries, Decimal, Entries, Ascii;
  }

  lemma NothingFilled(data: seq<byte>)
    requires forall i :: 0 <= i < |data| ==> data[i] == 0
    ensures Filled(data, [])
  {
  }

  lemma EntryLength(r: StudentRecord)
    requires |r.id| < MAX_STUDENT_ID
    ensures |Entry(r)| <= 20
  {
  }

  lemma PrintOne(done: Text, slots: seq<StudentRecord>)
    requires slots != [] && slots[0].id != [] && |done| < IPC_MAX_PAYLOAD - MARGIN
    ensures done + Entries(Printed(slots, |done|))
         == done + Entry(slots[0]) + Entries(Printed(slots[1..], |done| + |Entry(slots[0])|))
  {
    assert Printed(slots, |done|)[1..] == Printed(slots[1..], |done| + |Entry(slots[0])|);
  }
}
