/** minici-tui.c: reading the server's report back. */
module StatusParser {
  import opened Bytes
  import opened Options
  import opened Wire
  import opened Tracker
  import opened StatusPrinter

  const MAX_ENTRIES := 512

  /** An entry is an id and a result code. */
  datatype Snap = Snap(week: Text, submitted: nat, total: nat, records: nat, entries: seq<(Text, nat)>)

  const BLANK := Snap(Ascii("week_?"), 0, 0, 0, [])

  // ----------------------------------------------------------------------- the library's functions

  /** The length of the longest prefix of p of at most max characters without any of `stops`. */
  function Span(p: Text, max: nat, stops: Text): (n: nat)
    ensures n <= |p| && n <= max && forall i :: 0 <= i < n ==> p[i] !in stops
  {
    if max == 0 || p == [] || p[0] in stops then 0 else 1 + Span(p[1..], max - 1, stops)
  }

  /** sscanf with "%{max1}[^sep]sep%{max2}[^stops]", if it returns 2. */
  function ScanPair(p: Text, max1: nat, sep: byte, max2: nat, stops: Text): Option<(Text, Text)> {
    var n := Span(p, max1, [sep]);
    if n == 0 || n == |p| || p[n] != sep then None
    else
      var q := p[n + 1..];
      var m := Span(q, max2, stops);
      if m == 0 then None else Some((p[..n], q[..m]))
  }

  /** What follows the first c: strchr, and one further. */
  function Past(p: Text, c: byte): (r: Option<Text>)
    ensures r.Some? ==> |r.value| < |p|
  {
    if p == [] then None else if p[0] == c then Some(p[1..]) else Past(p[1..], c)
  }

  function Digits(s: Text): (n: nat)
    ensures n <= |s|
  {
    if s == [] || !(48 <= s[0] < 58) then 0 else 1 + Digits(s[1..])
  }

  function Value(s: Text): int {
    if s == [] then 0 else Value(s[..|s| - 1]) * 10 + (s[|s| - 1] as int - 48)
  }

  /** atoi: leading blanks, a sign, digits. */
  function Atoi(s: Text): int {
    if s == [] then 0
    else if s[0] == 32 || 9 <= s[0] <= 13 then Atoi(s[1..])
    else if s[0] == 45 then -Value(s[1..][..Digits(s[1..])])
    else if s[0] == 43 then Value(s[1..][..Digits(s[1..])])
    else Value(s[..Digits(s)])
  }

  /** The casts to uint16_t and uint32_t. */
  function U16(n: int): nat {
    n % 0x1_0000
  }

  function U32(n: int): nat {
    n % 0x1_0000_0000
  }

  // ---------------------------------------------------------------------- what parse_snap computes

  function SetField(snap: Snap, key: Text, value: Text): Snap {
    if key == Ascii("submitted") then snap.(submitted := U16(Atoi(value)))
    else if key == Ascii("total") then snap.(total := U16(Atoi(value)))
    else if key == Ascii("week") then snap.(week := Truncate(value, MAX_WEEK_NAME))
    else if key == Ascii("records") then snap.(records := U32(Atoi(value)))
    else snap
  }

  /** The first loop, from p on. */
  function Fields(p: Text, snap: Snap): Snap
    decreases |p|
  {
    if p == [] || p[0] == NL then snap
    else
      var next := match ScanPair(p, 31, EQUALS, 63, [BAR])
                  case None => snap
                  case Some(kv) => SetField(snap, kv.0, kv.1);
      match Past(p, BAR)
      case None => next
      case Some(q) => Fields(q, next)
  }

  /** GradeResult of include/protocol.h. */
  function Code(g: Grade): nat {
    match g case AC => 0 case WA => 1 case TLE => 2 case RE => 3 case CE => 4
  }

  /** The place of a name in the parser's own table; 1 for any other name. */
  function CodeOf(name: Text): nat {
    if name == Ascii("AC") then 0
    else if name == Ascii("WA") then 1
    else if name == Ascii("TLE") then 2
    else if name == Ascii("RE") then 3
    else if name == Ascii("CE") then 4
    else 1
  }

  /** The second loop, from p on, with room for `room` more entries. */
  function Students(p: Text, room: nat): seq<(Text, nat)>
    decreases |p|
  {
    if p == [] || room == 0 then []
    else
      match ScanPair(p, 15, COLON, 7, [COMMA, NL])
      case Some(e) =>
        [(e.0, CodeOf(e.1))] + (match Past(p, COMMA) case None => [] case Some(q) => Students(q, room - 1))
      case None =>
        match Past(p, COMMA) case None => [] case Some(q) => Students(q, room)
  }

  function Parsed(data: Text): Snap {
    var snap := Fields(data, BLANK);
    match Past(data, NL)
    case None => snap
    case Some(p) => snap.(entries := Students(p, MAX_ENTRIES))
  }

  // ---------------------------------------------------------------------------------- the parser

  /** strchr: the place of the first c from p on, or the length if there is none. */
  method Find(data: Text, p: nat, c: byte) returns (at: nat)
    requires p <= |data|
    ensures p <= at <= |data|
    ensures Past(data[p..], c) == if at == |data| then None else Some(data[at + 1..])
  {
    at := p;
    while at < |data| && data[at] != c
      invariant p <= at <= |data|
      invariant Past(data[p..], c) == Past(data[at..], c)
    {
      assert data[at..][1..] == data[at + 1..];
      at := at + 1;
    }
    if at < |data| {
      assert data[at..][1..] == data[at + 1..];
    }
  }

  method ParseFields(data: Text) returns (snap: Snap)
    ensures snap == Fields(data, BLANK)
  {
    hide ScanPair, SetField, Past;
    snap := BLANK;
    var p := 0;
    assert data[0..] == data;
    while p < |data| && data[p] != NL
      invariant 0 <= p <= |data|
      invariant Fields(data[p..], snap) == Fields(data, BLANK)
    {
      var kv := ScanPair(data[p..], 31, EQUALS, 63, [BAR]);
      var at := Find(data, p, BAR);
      if kv.Some? {
        snap := SetField(snap, kv.value.0, kv.value.1);
      }
      p := if at == |data| then at else at + 1;
    }
  }

  method ParseStudents(data: Text, start: nat) returns (entries: seq<(Text, nat)>)
    requires start <= |data|
    ensures entries == Students(data[start..], MAX_ENTRIES)
  {
    hide ScanPair, CodeOf, Past;
    entries := [];
    var p := start;
    while p < |data| && |entries| < MAX_ENTRIES
      invariant start <= p <= |data| && |entries| <= MAX_ENTRIES
      invariant entries + Students(data[p..], MAX_ENTRIES - |entries|) == Students(data[start..], MAX_ENTRIES)
    {
      ghost var before := entries;
      var e := ScanPair(data[p..], 15, COLON, 7, [COMMA, NL]);
      var at := Find(data, p, COMMA);
      if e.Some? {
        entries := entries + [(e.value.0, CodeOf(e.value.1))];
        ghost var later := if at == |data| then [] else Students(data[at + 1..], MAX_ENTRIES - |entries|);
        OneMore(before, (e.value.0, CodeOf(e.value.1)), later);
      }
      p := if at == |data| then at else at + 1;
    }
    assert entries + [] == entries;
  }

  lemma OneMore<T>(front: seq<T>, x: T, later: seq<T>)
    ensures front + [x] + later == front + ([x] + later)
  {
  }

  method ParseSnap(data: Text) returns (snap: Snap)
    ensures snap == Parsed(data)
  {
    snap := ParseFields(data);
    assert data[0..] == data;
    var line := Find(data, 0, NL);
    if line < |data| {
      var entries := ParseStudents(data, line + 1);
      snap := snap.(entries := entries);
    }
  }
}
