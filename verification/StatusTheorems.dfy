/** What the administrator's screen shows of the tracker is what the server has. */
module StatusTheorems {
  import opened Bytes
  import opened Options
  import opened Wire
  import opened Tracker
  import opened StatusPrinter
  import opened StatusParser

  // Beyond this, atoi is undefined.
  const INT_MAX := 0x7FFF_FFFF

  // -------------------------------------------------------------------------------- scanning text

  lemma {:induction false} SpanStops(x: Text, rest: Text, max: nat, stops: Text)
    requires |x| <= max && forall i :: 0 <= i < |x| ==> x[i] !in stops
    requires rest == [] || rest[0] in stops
    ensures Span(x + rest, max, stops) == |x|
  {
    if x == [] {
      assert x + rest == rest;
    } else {
      assert (x + rest)[1..] == x[1..] + rest;
      SpanStops(x[1..], rest, max - 1, stops);
    }
  }

  lemma {:induction false} PastSkips(x: Text, c: byte, rest: Text)
    requires c !in x
    ensures Past(x + [c] + rest, c) == Some(rest)
  {
    var p := x + [c] + rest;
    if x == [] {
      assert p == [c] + rest;
      assert p[1..] == rest;
    } else {
      assert p[1..] == x[1..] + [c] + rest;
      PastSkips(x[1..], c, rest);
    }
  }

  /** A pair written with its separator and what stops it is read back. */
  lemma ScanReads(a: Text, max1: nat, sep: byte, b: Text, max2: nat, stops: Text, rest: Text)
    requires 0 < |a| <= max1 && sep !in a
    requires 0 < |b| <= max2 && forall i :: 0 <= i < |b| ==> b[i] !in stops
    requires rest == [] || rest[0] in stops
    ensures ScanPair(a + [sep] + b + rest, max1, sep, max2, stops) == Some((a, b))
  {
    var p := a + [sep] + b + rest;
    assert p == a + ([sep] + b + rest);
    SpanStops(a, [sep] + b + rest, max1, [sep]);
    assert p[|a|] == sep && p[..|a|] == a && p[|a| + 1..] == b + rest;
    SpanStops(b, rest, max2, stops);
    assert (b + rest)[..|b|] == b;
  }

  lemma {:induction false} AllDigits(s: Text)
    requires forall i :: 0 <= i < |s| ==> 48 <= s[i] < 58
    ensures Digits(s) == |s|
  {
    if s != [] {
      AllDigits(s[1..]);
    }
  }

  lemma {:induction false} ValueOfDecimal(n: nat)
    ensures Value(Decimal(n)) == n
  {
    var s := Decimal(n);
    assert s[..|s| - 1] == if n < 10 then [] else Decimal(n / 10);
    if n >= 10 {
      ValueOfDecimal(n / 10);
    }
  }

  lemma AtoiOfDecimal(n: nat)
    ensures Atoi(Decimal(n)) == n
  {
    var s := Decimal(n);
    AllDigits(s);
    ValueOfDecimal(n);
    assert 48 <= s[0] < 58;
    assert s[..|s|] == s;
  }

  lemma {:induction false} DigitsExact(s: Text, rest: Text)
    requires (forall i :: 0 <= i < |s| ==> 48 <= s[i] < 58) && (rest == [] || !(48 <= rest[0] < 58))
    ensures Digits(s + rest) == |s|
  {
    if s == [] {
      assert s + rest == rest;
    } else {
      assert (s + rest)[1..] == s[1..] + rest;
      DigitsExact(s[1..], rest);
    }
  }

  lemma NumberTaken(n: nat, rest: Text)
    requires rest == [] || !(48 <= rest[0] < 58)
    ensures var p := Decimal(n) + rest; Value(p[..Digits(p)]) == n && p != [] && 48 <= p[0] < 58
  {
    var p := Decimal(n) + rest;
    DigitsExact(Decimal(n), rest);
    ValueOfDecimal(n);
    assert p[..|Decimal(n)|] == Decimal(n) && p[0] == Decimal(n)[0];
    hide Digits, Value, Decimal;
  }

  lemma {:induction false} BlanksSkipped(blanks: Text, p: Text)
    requires forall i :: 0 <= i < |blanks| ==> blanks[i] == 32 || 9 <= blanks[i] <= 13
    ensures Atoi(blanks + p) == Atoi(p)
  {
    if blanks == [] {
      assert blanks + p == p;
    } else {
      assert (blanks + p)[1..] == blanks[1..] + p;
      BlanksSkipped(blanks[1..], p);
    }
    hide Digits, Value;
  }

  lemma Signs(p: Text)
    requires p != [] && 48 <= p[0] < 58
    ensures Atoi(p) == Value(p[..Digits(p)])
    ensures Atoi([45] + p) == -Value(p[..Digits(p)]) && Atoi([43] + p) == Value(p[..Digits(p)])
  {
    hide Digits, Value;
    assert ([45] + p)[1..] == p && ([43] + p)[1..] == p;
    assert ([45] + p)[0] == 45 && ([43] + p)[0] == 43;
  }

  /** atoi reads a number after any blanks, with or without a sign, and stops at what is no digit. */
  lemma AtoiExact(blanks: Text, n: nat, rest: Text)
    requires forall i :: 0 <= i < |blanks| ==> blanks[i] == 32 || 9 <= blanks[i] <= 13
    requires rest == [] || !(48 <= rest[0] < 58)
    ensures Atoi(blanks + (Decimal(n) + rest)) == n
    ensures Atoi(blanks + ([45] + (Decimal(n) + rest))) == 0 - (n as int)
    ensures Atoi(blanks + ([43] + (Decimal(n) + rest))) == n
  {
    hide Atoi, Digits, Value, Decimal;
    var p := Decimal(n) + rest;
    NumberTaken(n, rest);
    BlanksSkipped(blanks, p);
    BlanksSkipped(blanks, [45] + p);
    BlanksSkipped(blanks, [43] + p);
    Signs(p);
  }

  // ----------------------------------------------------------------------------------- any text

  function Least(a: nat, b: nat): nat {
    if a < b then a else b
  }

  lemma {:induction false} SpanExact(x: Text, rest: Text, max: nat, stops: Text)
    requires forall i :: 0 <= i < |x| ==> x[i] !in stops
    requires rest == [] || rest[0] in stops
    ensures Span(x + rest, max, stops) == Least(|x|, max)
  {
    if x == [] {
      assert x + rest == rest;
    } else if max > 0 {
      assert (x + rest)[1..] == x[1..] + rest;
      SpanExact(x[1..], rest, max - 1, stops);
    }
  }

  /** A pair is read if its first part is not too long, and the second cut to its width. */
  lemma ScanExact(a: Text, max1: nat, sep: byte, b: Text, max2: nat, stops: Text, rest: Text)
    requires a != [] && sep !in a && b != [] && max2 > 0
    requires (forall i :: 0 <= i < |b| ==> b[i] !in stops) && (rest == [] || rest[0] in stops)
    ensures ScanPair(a + [sep] + b + rest, max1, sep, max2, stops) ==
            if |a| <= max1 then Some((a, b[..Least(|b|, max2)])) else None
  {
    var p := a + [sep] + b + rest;
    assert p == a + ([sep] + b + rest);
    SpanExact(a, [sep] + b + rest, max1, [sep]);
    if |a| <= max1 {
      assert p[|a|] == sep && p[..|a|] == a && p[|a| + 1..] == b + rest;
      SpanExact(b, rest, max2, stops);
      assert (b + rest)[..Least(|b|, max2)] == b[..Least(|b|, max2)];
    } else if max1 > 0 {
      assert p[max1] == a[max1];
    }
  }

  /** What a field sets: the four keys of the program their numbers, modulo the width of their types, and the
      week, cut to 31 bytes; any other key nothing. */
  lemma KeyExact(snap: Snap, key: Text, value: Text)
    ensures key == Ascii("submitted") ==> SetField(snap, key, value) == snap.(submitted := Atoi(value) % 0x1_0000)
    ensures key == Ascii("total") ==> SetField(snap, key, value) == snap.(total := Atoi(value) % 0x1_0000)
    ensures key == Ascii("records") ==> SetField(snap, key, value) == snap.(records := Atoi(value) % 0x1_0000_0000)
    ensures key == Ascii("week") ==> SetField(snap, key, value) == snap.(week := value[..Least(|value|, 31)])
    ensures key != Ascii("submitted") && key != Ascii("total") && key != Ascii("records") && key != Ascii("week") ==>
              SetField(snap, key, value) == snap
  {
    hide Atoi;
    assert |Ascii("submitted")| == 9 && |Ascii("total")| == 5 && |Ascii("records")| == 7 && |Ascii("week")| == 4;
    hide Ascii;
    assert value == value[..|value|];
  }

  /** Any field of the first line: a key of more than 31 bytes is passed over, a value cut to 63. */
  lemma FieldExact(key: Text, value: Text, rest: Text, snap: Snap)
    requires key != [] && 61 !in key && 124 !in key && key[0] != 10 && value != [] && 124 !in value
    ensures Fields(key + [61] + value + [124] + rest, snap) ==
            Fields(rest, if |key| <= 31 then SetField(snap, key, value[..Least(|value|, 63)]) else snap)
  {
    var p := key + [61] + value + [124] + rest;
    assert p == key + [EQUALS] + value + ([BAR] + rest);
    ScanExact(key, 31, EQUALS, value, 63, [BAR], [BAR] + rest);
    assert p == (key + [EQUALS] + value) + [BAR] + rest;
    PastSkips(key + [EQUALS] + value, BAR, rest);
    assert p[0] == key[0];
    hide ScanPair, Past, SetField, Ascii;
  }

  /** Any entry of the second: with an id of more than 15 bytes it is passed over, its name cut to 7, and taken
      for WA if it is none of the five. */
  lemma StudentExact(id: Text, name: Text, rest: Text, room: nat)
    requires id != [] && 58 !in id && 44 !in id && name != [] && 58 !in name && 44 !in name && 10 !in name && room > 0
    ensures Students(id + [58] + name + [44] + rest, room) ==
            if |id| <= 15 then [(id, CodeOf(name[..Least(|name|, 7)]))] + Students(rest, room - 1)
            else Students(rest, room)
  {
    var p := id + [58] + name + [44] + rest;
    assert p == id + [COLON] + name + ([COMMA] + rest);
    ScanExact(id, 15, COLON, name, 7, [COMMA, NL], [COMMA] + rest);
    assert p == (id + [COLON] + name) + [COMMA] + rest;
    PastSkips(id + [COLON] + name, COMMA, rest);
    assert p != [];
    hide ScanPair, Past, CodeOf, Ascii;
  }

  // ----------------------------------------------------------------------------------- the header

  predicate IsKey(key: Text) {
    0 < |key| < 32 && EQUALS !in key && BAR !in key && key[0] != NL
  }

  lemma FieldRead(key: Text, value: Text, rest: Text, snap: Snap)
    requires IsKey(key) && 0 < |value| < 64 && BAR !in value
    ensures Fields(Field(key, value) + rest, snap) == Fields(rest, SetField(snap, key, value))
  {
    var p := Field(key, value) + rest;
    assert p == key + [EQUALS] + value + ([BAR] + rest);
    ScanReads(key, 31, EQUALS, value, 63, [BAR], [BAR] + rest);
    assert p == (key + [EQUALS] + value) + [BAR] + rest;
    PastSkips(key + [EQUALS] + value, BAR, rest);
    assert p[0] == key[0];
    hide ScanPair, Past, SetField, Field;
  }

  /** tui_valid_week_name: letters, digits, _ and -. */
  predicate ValidWeek(week: Text) {
    && 0 < |week| < MAX_WEEK_NAME
    && forall c :: c in week ==> (48 <= c <= 57 || 65 <= c <= 90 || 97 <= c <= 122 || c == 95 || c == 45)
  }

  lemma Keys()
    ensures IsKey(SUBMITTED) && IsKey(TOTAL) && IsKey(WEEK) && IsKey(RECORDS)
  {
  }

  lemma CastsKeep(n: nat)
    ensures n < 0x1_0000 ==> U16(n) == n
    ensures n < 0x1_0000_0000 ==> U32(n) == n
  {
  }

  /** The printer's keys are the parser's. */
  lemma KeysAgree()
    ensures SUBMITTED == Ascii("submitted") && TOTAL == Ascii("total")
    ensures WEEK == Ascii("week") && RECORDS == Ascii("records")
  {
  }

  lemma SetNumber(snap: Snap, n: nat)
    ensures n < 0x1_0000 ==> SetField(snap, SUBMITTED, Decimal(n)) == snap.(submitted := n)
    ensures n < 0x1_0000 ==> SetField(snap, TOTAL, Decimal(n)) == snap.(total := n)
    ensures n < 0x1_0000_0000 ==> SetField(snap, RECORDS, Decimal(n)) == snap.(records := n)
  {
    hide Atoi, Decimal, U16, U32, Ascii;
    AtoiOfDecimal(n);
    CastsKeep(n);
    KeysAgree();
    assert |SUBMITTED| == 9 && |TOTAL| == 5 && |WEEK| == 4 && |RECORDS| == 7;
  }

  lemma NumberRead(key: Text, n: nat, rest: Text, snap: Snap)
    requires IsKey(key) && |Decimal(n)| < 64
    ensures Fields(Field(key, Decimal(n)) + rest, snap) == Fields(rest, SetField(snap, key, Decimal(n)))
  {
    hide Fields, Field, Decimal, SetField, IsKey;
    FieldRead(key, Decimal(n), rest, snap);
  }

  lemma FieldLacksNewline(key: Text, value: Text)
    requires NL !in key && NL !in value
    ensures NL !in Field(key, value)
  {
  }

  lemma HeaderFields(submitted: nat, total: nat, week: Text, records: nat, rest: Text)
    requires submitted < 0x1_0000 && total < 0x1_0000 && records < 0x1_0000_0000 && ValidWeek(week)
    ensures Fields(Field(SUBMITTED, Decimal(submitted)) + (Field(TOTAL, Decimal(total)) +
              (Field(WEEK, week) + (Field(RECORDS, Decimal(records)) + ([NL] + rest)))), BLANK)
         == Snap(week, submitted, total, records, [])
  {
    Keys();
    FieldLengths(submitted, total, records);
    var p := [NL] + rest;
    var f2, f3, f4 := Field(TOTAL, Decimal(total)), Field(WEEK, week), Field(RECORDS, Decimal(records));
    var s1 := BLANK.(submitted := submitted);
    var s2 := s1.(total := total);
    var s3 := s2.(week := week);
    assert Fields(p, s3.(records := records)) == s3.(records := records);
    hide Fields, Field, Decimal;
    SetNumber(BLANK, submitted);
    SetNumber(s1, total);
    SetNumber(s3, records);
    NumberRead(SUBMITTED, submitted, f2 + (f3 + (f4 + p)), BLANK);
    NumberRead(TOTAL, total, f3 + (f4 + p), s1);
    FieldRead(WEEK, week, f4 + p, s2);
    NumberRead(RECORDS, records, p, s3);
  }

  lemma Nested(a: Text, b: Text, c: Text, d: Text, e: Text, rest: Text)
    ensures (a + (b + (c + (d + e)))) + rest == a + (b + (c + (d + (e + rest))))
    ensures a + (b + (c + (d + (e + rest)))) == (a + (b + (c + d))) + e + rest
  {
  }

  /** The header, whatever follows it, is read back. */
  lemma HeaderRead(submitted: nat, total: nat, week: Text, records: nat, rest: Text)
    requires submitted < 0x1_0000 && total < 0x1_0000 && records < 0x1_0000_0000 && ValidWeek(week)
    ensures Fields(Header(submitted, total, week, records) + rest, BLANK)
         == Snap(week, submitted, total, records, [])
    ensures Past(Header(submitted, total, week, records) + rest, NL) == Some(rest)
  {
    var f1, f2 := Field(SUBMITTED, Decimal(submitted)), Field(TOTAL, Decimal(total));
    var f3, f4 := Field(WEEK, week), Field(RECORDS, Decimal(records));
    HeaderFields(submitted, total, week, records, rest);
    Nested(f1, f2, f3, f4, [NL], rest);
    FieldLacksNewline(SUBMITTED, Decimal(submitted));
    FieldLacksNewline(TOTAL, Decimal(total));
    FieldLacksNewline(WEEK, week);
    FieldLacksNewline(RECORDS, Decimal(records));
    hide Fields, Field, Decimal;
    PastSkips(f1 + (f2 + (f3 + f4)), NL, rest);
  }

  // --------------------------------------------------------------------------------- the students

  /** An id that comes through the list unharmed: no colon, and no comma but at its end. */
  predicate Clean(id: Text) {
    && 0 < |id| < MAX_STUDENT_ID && COLON !in id
    && forall i :: 0 <= i < |id| - 1 ==> id[i] != COMMA
  }

  function Listed(rs: seq<StudentRecord>): (es: seq<(Text, nat)>)
    ensures |es| == |rs| && forall i :: 0 <= i < |rs| ==> es[i] == (rs[i].id, Code(rs[i].best))
  {
    if rs == [] then [] else [(rs[0].id, Code(rs[0].best))] + Listed(rs[1..])
  }

  /** The printer's names of the grades are the parser's. */
  lemma NamesAgree()
    ensures GradeName(AC) == Ascii("AC") && GradeName(WA) == Ascii("WA") && GradeName(TLE) == Ascii("TLE")
    ensures GradeName(RE) == Ascii("RE") && GradeName(CE) == Ascii("CE")
  {
  }

  lemma GradeNames(g: Grade)
    ensures CodeOf(GradeName(g)) == Code(g)
    ensures COLON !in GradeName(g) && COMMA !in GradeName(g) && NL !in GradeName(g)
    ensures 0 < |GradeName(g)| <= 7
  {
    NamesAgree();
    hide Ascii;
    match g
    case AC => assert GradeName(AC)[0] == 65;
    case WA => assert GradeName(WA)[0] == 87;
    case TLE => assert GradeName(TLE)[0] == 84;
    case RE => assert GradeName(RE)[0] == 82;
    case CE => assert GradeName(CE)[0] == 67;
  }

  lemma EntryScanned(r: StudentRecord, rest: Text)
    requires 0 < |r.id| < MAX_STUDENT_ID && COLON !in r.id
    ensures ScanPair(Entry(r) + rest, 15, COLON, 7, [COMMA, NL]) == Some((r.id, GradeName(r.best)))
  {
    var g := GradeName(r.best);
    GradeNames(r.best);
    ScanReads(r.id, 15, COLON, g, 7, [COMMA, NL], [COMMA] + rest);
    assert Entry(r) + rest == r.id + [COLON] + g + ([COMMA] + rest);
  }

  /** What is left of an entry from its colon on yields no entry. */
  lemma RemainderSkipped(g: Text, rest: Text, room: nat)
    requires COMMA !in g
    ensures Students([COLON] + g + [COMMA] + rest, room) == Students(rest, room)
  {
    var left := [COLON] + g + [COMMA] + rest;
    PastSkips([COLON] + g, COMMA, rest);
    assert left[0] == COLON;
    assert ScanPair(left, 15, COLON, 7, [COMMA, NL]) == None;
    hide ScanPair, Past;
  }

  /** Where the parser goes on after an entry. */
  lemma EntryPast(r: StudentRecord, rest: Text)
    requires Clean(r.id)
    ensures var g := GradeName(r.best);
            Past(Entry(r) + rest, COMMA) == Some(if COMMA in r.id then [COLON] + g + [COMMA] + rest else rest)
  {
    var g := GradeName(r.best);
    GradeNames(r.best);
    if COMMA !in r.id {
      assert Entry(r) + rest == (r.id + [COLON] + g) + [COMMA] + rest;
      PastSkips(r.id + [COLON] + g, COMMA, rest);
    } else {
      var front := r.id[..|r.id| - 1];
      assert r.id == front + [COMMA];
      assert Entry(r) + rest == front + [COMMA] + ([COLON] + g + [COMMA] + rest);
      PastSkips(front, COMMA, [COLON] + g + [COMMA] + rest);
    }
    hide Past;
  }

  lemma EntryRead(r: StudentRecord, rest: Text, room: nat)
    requires Clean(r.id) && room > 0
    ensures Students(Entry(r) + rest, room) == [(r.id, Code(r.best))] + Students(rest, room - 1)
  {
    GradeNames(r.best);
    EntryScanned(r, rest);
    EntryPast(r, rest);
    if COMMA in r.id {
      RemainderSkipped(GradeName(r.best), rest, room - 1);
    }
    assert Entry(r) + rest != [];
    hide ScanPair, Past, Entry, GradeName, CodeOf, Code, Clean;
  }

  /** A list of clean students is read back. */
  lemma {:induction false} EntriesRead(rs: seq<StudentRecord>, room: nat)
    requires |rs| <= room && forall i :: 0 <= i < |rs| ==> Clean(rs[i].id)
    ensures Students(Entries(rs), room) == Listed(rs)
  {
    hide Clean, Entry, Code, ScanPair, Past;
    if rs != [] {
      assert Clean(rs[0].id);
      EntriesRead(rs[1..], room - 1);
      EntryRead(rs[0], Entries(rs[1..]), room);
      hide Students;
    }
  }

  lemma {:induction false} NoColonInIds(p: Text, room: nat)
    ensures forall i :: 0 <= i < |Students(p, room)| ==> COLON !in Students(p, room)[i].0
    decreases |p|
  {
    if p != [] && room > 0 {
      match Past(p, COMMA)
      case None =>
      case Some(q) =>
        NoColonInIds(q, room - 1);
        NoColonInIds(q, room);
    }
  }

  /** What one entry without a colon in its id is read as: at least one entry, as far as there is
      room, and at least two if a comma stands inside the id. */
  lemma {:induction false} EntryYields(r: StudentRecord, rest: Text, room: nat) returns (es: seq<(Text, nat)>)
    requires 0 < |r.id| < MAX_STUDENT_ID && COLON !in r.id && room > 0
    ensures 1 <= |es| <= room && (!Clean(r.id) && room >= 2 ==> |es| >= 2)
    ensures Students(Entry(r) + rest, room) == es + Students(rest, room - |es|)
    decreases |r.id|
  {
    hide ScanPair, Past, GradeName, CodeOf;
    if Clean(r.id) {
      EntryRead(r, rest, room);
      es := [(r.id, Code(r.best))];
    } else {
      var back := CommaInside(r, rest, room);
      if room == 1 {
        es := [(r.id, CodeOf(GradeName(r.best)))];
      } else {
        var more := EntryYields(back, rest, room - 1);
        es := [(r.id, CodeOf(GradeName(r.best)))] + more;
        Joined((r.id, CodeOf(GradeName(r.best))), more, Students(rest, room - |es|));
      }
    }
  }

  lemma Joined<T>(x: T, more: seq<T>, later: seq<T>)
    ensures [x] + (more + later) == [x] + more + later
  {
  }

  /** An id with a comma inside is followed by another entry, for the part after the comma. */
  lemma CommaInside(r: StudentRecord, rest: Text, room: nat) returns (back: StudentRecord)
    requires 0 < |r.id| < MAX_STUDENT_ID && COLON !in r.id && !Clean(r.id) && room > 0
    ensures 0 < |back.id| < |r.id| && COLON !in back.id
    ensures Students(Entry(r) + rest, room)
         == [(r.id, CodeOf(GradeName(r.best)))] + Students(Entry(back) + rest, room - 1)
  {
    var i := FirstComma(r.id);
    back := r.(id := r.id[i + 1..]);
    assert Entry(r) + rest == r.id[..i] + [COMMA] + (Entry(back) + rest);
    PastSkips(r.id[..i], COMMA, Entry(back) + rest);
    EntryScanned(r, rest);
    assert Entry(r) + rest != [];
    hide ScanPair, Entry, Past, Clean, CodeOf, GradeName;
  }

  lemma FirstComma(id: Text) returns (i: nat)
    requires exists k :: 0 <= k < |id| - 1 && id[k] == COMMA
    ensures i < |id| - 1 && id[i] == COMMA && COMMA !in id[..i]
  {
    i := 0;
    while id[i] != COMMA
      invariant i < |id| - 1 && COMMA !in id[..i]
      invariant exists k :: i <= k < |id| - 1 && id[k] == COMMA
      decreases |id| - i
    {
      assert id[..i + 1] == id[..i] + [id[i]];
      i := i + 1;
    }
  }

  /** Whatever the ids, as long as they have no colon: at least an entry for each as far as there is
      room, and one more than there are students if some id has a comma inside. */
  lemma {:induction false} EntriesCount(rs: seq<StudentRecord>, room: nat)
    requires forall i :: 0 <= i < |rs| ==> 0 < |rs[i].id| < MAX_STUDENT_ID && COLON !in rs[i].id
    ensures |Students(Entries(rs), room)| >= if |rs| < room then |rs| else room
    ensures |rs| < room && (exists i :: 0 <= i < |rs| && !Clean(rs[i].id)) ==> |Students(Entries(rs), room)| > |rs|
  {
    hide Clean, Entry, Students;
    if rs != [] && room > 0 {
      var es := EntryYields(rs[0], Entries(rs[1..]), room);
      EntriesCount(rs[1..], room - |es|);
      if k :| 0 <= k < |rs| && !Clean(rs[k].id) {
        assert k > 0 ==> rs[1..][k - 1] == rs[k];
      }
    }
  }

  predicate AllClean(rs: seq<StudentRecord>) {
    forall i :: 0 <= i < |rs| ==> Clean(rs[i].id)
  }

  /** Exactly the clean ids come through: a list is read back if all its ids are clean and, unless it
      fills the screen's array, only then. */
  lemma ListExact(rs: seq<StudentRecord>, room: nat)
    requires |rs| <= room && forall i :: 0 <= i < |rs| ==> 0 < |rs[i].id| < MAX_STUDENT_ID
    ensures AllClean(rs) ==> Students(Entries(rs), room) == Listed(rs)
    ensures |rs| < room ==> (Students(Entries(rs), room) == Listed(rs) <==> AllClean(rs))
  {
    hide Clean, Entry, Students, Entries;
    if AllClean(rs) {
      EntriesRead(rs, room);
    } else if |rs| < room {
      NoColonInIds(Entries(rs), room);
      if i :| 0 <= i < |rs| && COLON in rs[i].id {
        assert Listed(rs)[i].0 == rs[i].id;
      } else {
        EntriesCount(rs, room);
      }
    }
  }

  /** A list that fills the array is read back even with commas inside its last id. */
  lemma {:induction false} LastMayHaveCommas(rs: seq<StudentRecord>, last: StudentRecord)
    requires AllClean(rs) && 0 < |last.id| < MAX_STUDENT_ID && COLON !in last.id
    ensures Students(Entries(rs + [last]), |rs| + 1) == Listed(rs + [last])
  {
    hide Clean, Entry, ScanPair, Past, Code, CodeOf, GradeName;
    var all := rs + [last];
    if rs == [] {
      assert Entries(all) == Entry(last) + [];
      GradeNames(last.best);
      if Clean(last.id) {
        EntryRead(last, [], 1);
      } else {
        var back := CommaInside(last, [], 1);
      }
    } else {
      assert all[1..] == rs[1..] + [last] && all[0] == rs[0];
      assert Clean(rs[0].id);
      LastMayHaveCommas(rs[1..], last);
      EntryRead(rs[0], Entries(all[1..]), |rs| + 1);
      hide Students;
    }
  }

  // -------------------------------------------------------------------------------- the round trip

  /** Whatever the tracker holds in a validly named week, the screen shows its counts; and it shows
      the printed students in order if their ids are clean and, unless they fill its array, only then.
      The printed ones are a prefix of the tracker's, all of them if there are at most 405. */
  lemma ReportRoundTrip(submitted: nat, total: nat, week: Text, records: nat, slots: seq<StudentRecord>)
    requires Fits(submitted, total, week, records, slots) && ValidWeek(week) && |slots| <= 512
    requires records <= 0x7FFF_FFFF
    ensures var printed := Printed(slots, |Header(submitted, total, week, records)|);
            var snap := Parsed(Report(submitted, total, week, records, slots));
            && snap == Snap(week, submitted, total, records, snap.entries)
            && (AllClean(printed) ==> snap.entries == Listed(printed))
            && (|printed| < 512 ==> (snap.entries == Listed(printed) <==> AllClean(printed)))
            && printed <= Used(slots)
            && (|Used(slots)| <= 405 ==> printed == Used(slots))
  {
    hide Header, Clean, Fields, Students, Entries, AllClean;
    var n := |Header(submitted, total, week, records)|;
    var printed := Printed(slots, n);
    HeaderLength(submitted, total, week, records);
    PrintedIsPrefix(slots, n);
    UsedLength(slots);
    if |Used(slots)| <= 405 {
      AllPrinted(slots, n);
    }
    HeaderRead(submitted, total, week, records, Entries(printed));
    forall i | 0 <= i < |printed| ensures 0 < |printed[i].id| < MAX_STUDENT_ID {
      assert printed[i] == Used(slots)[i] == slots[i];
      assert slots[i] in slots;
    }
    ListExact(printed, MAX_ENTRIES);
  }

  lemma {:induction false} UsedLength(slots: seq<StudentRecord>)
    ensures |Used(slots)| <= |slots|
    ensures forall i :: 0 <= i < |Used(slots)| ==> Used(slots)[i] == slots[i] && slots[i].id != []
  {
    if Used(slots) != [] {
      UsedLength(slots[1..]);
    }
  }

  lemma {:induction false} EntriesHaveNoZero(rs: seq<StudentRecord>)
    requires forall i :: 0 <= i < |rs| ==> NoZero(rs[i].id)
    ensures NoZero(Entries(rs))
  {
    if rs != [] {
      EntriesHaveNoZero(rs[1..]);
    }
  }

  lemma ReportHasNoZero(submitted: nat, total: nat, week: Text, records: nat, slots: seq<StudentRecord>)
    requires Fits(submitted, total, week, records, slots)
    ensures NoZero(Report(submitted, total, week, records, slots))
  {
    var n := |Header(submitted, total, week, records)|;
    UsedLength(slots);
    PrintedIsPrefix(slots, n);
    EntriesHaveNoZero(Printed(slots, n));
    assert NoZero(Header(submitted, total, week, records)) by {
      assert NoZero(SUBMITTED) && NoZero(TOTAL) && NoZero(WEEK) && NoZero(RECORDS);
    }
    hide Header;
  }

  lemma {:induction false} ListedPrefix(rs: seq<StudentRecord>, all: seq<StudentRecord>)
    requires rs <= all
    ensures Listed(rs) <= Listed(all)
  {
    if rs != [] {
      ListedPrefix(rs[1..], all[1..]);
    }
  }

  /** Server and screen together: the response is printed into its buffer, and read back up to its
      first zero. */
  method ShowTracker(submitted: nat, total: nat, week: Text, records: nat, slots: seq<StudentRecord>)
    returns (snap: Snap)
    requires Fits(submitted, total, week, records, slots) && ValidWeek(week) && |slots| <= MAX_ENTRIES
    requires records <= INT_MAX
    ensures snap.week == week && snap.submitted == submitted && snap.total == total && snap.records == records
    ensures AllClean(Used(slots)) ==> snap.entries <= Listed(Used(slots))
    ensures |Used(slots)| <= 405 ==> (snap.entries == Listed(Used(slots)) <==> AllClean(Used(slots)))
  {
    hide Header, Clean, Used, Printed, Parsed, Fits, ValidWeek, Report;
    var data := PrintTracker(submitted, total, week, records, slots);
    ghost var text := Report(submitted, total, week, records, slots);
    ReportHasNoZero(submitted, total, week, records, slots);
    GetTextOf(text, Zeros(IPC_MAX_PAYLOAD - |text|));
    snap := ParseSnap(GetText(data[..]));
    ReportRoundTrip(submitted, total, week, records, slots);
    ghost var printed := Printed(slots, |Header(submitted, total, week, records)|);
    ListedPrefix(printed, Used(slots));
    if AllClean(Used(slots)) {
      forall i | 0 <= i < |printed| ensures Clean(printed[i].id) {
        assert printed[i] == Used(slots)[i];
      }
    }
  }

  lemma {:induction false} UsedAre(slots: seq<StudentRecord>, n: nat)
    requires n <= |slots| && (n < |slots| ==> slots[n].id == [])
    requires forall i :: 0 <= i < n ==> slots[i].id != []
    ensures Used(slots) == slots[..n]
  {
    if n > 0 {
      assert slots[..n] == [slots[0]] + slots[1..][..n - 1];
      UsedAre(slots[1..], n - 1);
    }
  }

  lemma SummaryHasId(h: History)
    ensures forall id :: Summary(h, id).id == id
  {
  }

  /** The slots in use are the students of the history. */
  lemma UsedOfHistory(h: History)
    requires ProperIds(h)
    ensures |Used(After(h).slots)| == |Roster(h)| <= |After(h).slots| == MAX_STUDENTS
    ensures forall i :: 0 <= i < |Roster(h)| ==> Used(After(h).slots)[i] == Summary(h, Roster(h)[i])
    ensures forall i :: 0 <= i < |Roster(h)| ==> exists s :: s in h && s.0 == Roster(h)[i]
    ensures forall r | r in After(h).slots :: r.id == [] || exists s :: s in h && s.0 == r.id
  {
    hide After, Roster, Summary, SolvedSet, Used;
    TableDescribesHistory(h);
    RosterSound(h);
    SummaryHasId(h);
    var slots, ids := After(h).slots, Roster(h);
    forall i | 0 <= i < |ids| ensures (exists s :: s in h && s.0 == ids[i]) && slots[i].id == ids[i] != [] {
      assert ids[i] in ids;
      var s :| s in h && s.0 == ids[i];
      assert ProperId(s.0);
    }
    forall r | r in slots ensures r.id == [] || exists s :: s in h && s.0 == r.id {
      var i :| 0 <= i < |slots| && slots[i] == r;
    }
    UsedAre(slots, |ids|);
  }

  lemma HistoryFits(h: History)
    requires forall s | s in h :: Clean(s.0) && NoZero(s.0)
    ensures ProperIds(h) && |After(h).slots| == MAX_STUDENTS && After(h).submitted == |SolvedSet(h)| <= MAX_STUDENTS
    ensures forall r | r in After(h).slots :: |r.id| < MAX_STUDENT_ID && NoZero(r.id)
    ensures AllClean(Used(After(h).slots))
  {
    UsedOfHistory(h);
    TableDescribesHistory(h);
    RosterSound(h);
    SetOfSeqSize(Roster(h), SolvedSet(h));
    hide After, Roster, Used, SolvedSet;
  }

  /** Students and solvers only become more. */
  lemma {:induction false} SolvedGrows(h: History, more: History)
    ensures Roster(h) <= Roster(h + more) && SolvedSet(h) <= SolvedSet(h + more)
    decreases |more|
  {
    if more == [] {
      assert h + more == h;
    } else {
      var n := |more| - 1;
      var front, last := h + more[..n], more[n];
      assert h + more == front + [(last.0, last.1)];
      SolvedGrows(h, more[..n]);
      Snoc(front, last.0, last.1, last.0);
      SolvedSetStep(front, last.0, last.1);
      hide SolvedSet, Roster, Solved;
    }
  }

  lemma SameSize<T>(a: set<T>, b: set<T>)
    requires a <= b
    ensures |a| == |b| <==> a == b
  {
    if x :| x in b && x !in a {
      SubsetSize(a, b - {x});
    } else {
      assert a == b;
    }
  }

  lemma {:induction false} SubsetSize<T>(a: set<T>, b: set<T>)
    requires a <= b
    ensures |a| <= |b|
  {
    if a != {} {
      var x :| x in a;
      SubsetSize(a - {x}, b - {x});
    }
  }

  /** The ids a list shows as having solved the assignment. */
  function Solvers(es: seq<(Text, nat)>): set<Text> {
    set e | e in es && e.1 == Code(AC) :: e.0
  }

  function Shown(h: History, id: Text): (Text, nat) {
    (id, Code(if Solved(h, id) then AC else Latest(h, id)))
  }

  lemma SolversShown(h: History, es: seq<(Text, nat)>)
    requires |es| == |Roster(h)| && forall i :: 0 <= i < |es| ==> es[i] == Shown(h, Roster(h)[i])
    ensures Solvers(es) == SolvedSet(h)
  {
    hide Roster, Solved, Latest;
    forall id ensures id in Solvers(es) <==> id in SolvedSet(h) {
      InSolvedSet(h, id);
      if id in Solvers(es) {
        var e :| e in es && e.1 == Code(AC) && e.0 == id;
        var i :| 0 <= i < |es| && es[i] == e;
        assert Roster(h)[i] == id;
        if !Solved(h, id) {
          LatestUnsolved(h, id);
        }
      }
      if id in SolvedSet(h) {
        var i :| 0 <= i < |Roster(h)| && Roster(h)[i] == id;
        assert es[i] in es;
      }
    }
  }

  lemma PrintedOfHistory(h: History, n: nat)
    requires forall s | s in h :: Clean(s.0) && NoZero(s.0)
    ensures var printed := Printed(After(h).slots, n);
            && |printed| <= |Roster(h)| && AllClean(printed)
            && (forall i :: 0 <= i < |printed| ==> Listed(printed)[i] == Shown(h, Roster(h)[i]))
            && (|Roster(h)| <= 405 && n <= 85 ==> |printed| == |Roster(h)|)
  {
    var slots := After(h).slots;
    var printed := Printed(slots, n);
    HistoryFits(h);
    UsedOfHistory(h);
    PrintedIsPrefix(slots, n);
    hide After, Roster, Used, Clean, Printed, NoZero, ProperId, SolvedSet, Latest, Solved;
    forall i | 0 <= i < |printed| ensures Clean(printed[i].id) && printed[i] == Summary(h, Roster(h)[i]) {
      assert printed[i] == Used(slots)[i];
    }
    if |Roster(h)| <= 405 && n <= 85 {
      AllPrinted(slots, n);
    }
  }

  /** From the submissions to the screen. The server reads the solved count first and the students
      later, so submissions may come in between. The screen shows how many students had solved the
      assignment at the first moment; and the students at the second, in the order of their first
      submissions, each with AC if it ever got one and with its latest grade if not, all of them if
      there are at most 405. Then the count is the number of solvers in the list if and only if no
      student has solved the assignment in between. */
  lemma HistoryOnScreen(h: History, between: History, total: nat, week: Text, records: nat)
    requires forall s | s in h + between :: Clean(s.0) && NoZero(s.0)
    requires total < 0x1_0000 && ValidWeek(week) && NoZero(week) && records <= INT_MAX
    ensures var now := h + between;
            var snap := Parsed(Report(After(h).submitted, total, week, records, After(now).slots));
            && snap == Snap(week, |SolvedSet(h)|, total, records, snap.entries)
            && |snap.entries| <= |Roster(now)| && (|Roster(now)| <= 405 ==> |snap.entries| == |Roster(now)|)
            && (forall i :: 0 <= i < |snap.entries| ==> snap.entries[i] == Shown(now, Roster(now)[i]))
            && (|Roster(now)| <= 405 ==> Solvers(snap.entries) == SolvedSet(now))
            && (snap.submitted == |SolvedSet(now)| <==> SolvedSet(h) == SolvedSet(now))
  {
    var now := h + between;
    var slots, n := After(now).slots, |Header(After(h).submitted, total, week, records)|;
    forall s | s in h ensures Clean(s.0) && NoZero(s.0) {
      assert s in now;
    }
    HistoryFits(h);
    HistoryFits(now);
    PrintedOfHistory(now, n);
    SolvedGrows(h, between);
    SameSize(SolvedSet(h), SolvedSet(now));
    hide After, Roster, Header, ValidWeek, SolvedSet, Report, Parsed, Printed, Shown, AllClean, Listed, Used, Solvers;
    HeaderLength(After(h).submitted, total, week, records);
    ReportRoundTrip(After(h).submitted, total, week, records, slots);
    if |Roster(now)| <= 405 {
      SolversShown(now, Listed(Printed(slots, n)));
    }
  }
}
