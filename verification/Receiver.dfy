/** The receiving side of the file-distribution protocol as a machine over a byte string: what
    do_pull_mode makes of whatever bytes reach it before the connection ends. */
module Receiver {
  import opened Bytes
  import opened Wire
  import opened Options

  // ------------------------------------------------------------------------- the client's directory

  datatype File = File(bytes: seq<byte>, exec: bool)

  type Dir = map<Text, File>

  /** A directory that refuses to open some names and accepts `room` more bytes in all. */
  datatype Disk = Disk(files: Dir, blocked: set<Text>, room: nat)

  /** open with O_CREAT | O_TRUNC: an existing file loses its bytes but keeps its mode. */
  function Create(files: Dir, name: Text): Dir {
    files[name := File([], name in files && files[name].exec)]
  }

  function Append(files: Dir, name: Text, bytes: seq<byte>): Dir {
    if name in files then files[name := files[name].(bytes := files[name].bytes + bytes)] else files
  }

  lemma AppendTwice(files: Dir, name: Text, a: seq<byte>, b: seq<byte>)
    requires name in files
    ensures Append(Append(files, name, a), name, b) == Append(files, name, a + b)
    ensures Append(files, name, []) == files
  {
    assert files[name].bytes + a + b == files[name].bytes + (a + b);
    assert files[name].bytes + [] == files[name].bytes;
  }

  function Unlink(files: Dir, name: Text): Dir {
    files - {name}
  }

  /** chmod 0755. */
  function MakeExec(files: Dir, name: Text): Dir {
    if name in files then files[name := files[name].(exec := true)] else files
  }

  // ------------------------------------------------------------------------------- safe file names

  const DOTDOT: Text := [0x2E, 0x2E]

  predicate StartsWith(s: Text, t: Text) {
    |t| <= |s| && s[..|t|] == t
  }

  predicate Contains(s: Text, t: Text) {
    StartsWith(s, t) || (s != [] && Contains(s[1..], t))
  }

  /** is_safe_filename, test by test. */
  predicate IsSafeFilename(name: Text) {
    && name != []
    && SLASH !in name
    && BACKSLASH !in name
    && name != DOTDOT
    && !StartsWith(name, DOTDOT + [SLASH])
    && !Contains(name, [SLASH] + DOTDOT + [SLASH])
    && !Contains(name, [BACKSLASH] + DOTDOT + [BACKSLASH])
  }

  lemma StartsWithMeansIn(s: Text, t: Text, i: nat)
    requires StartsWith(s, t) && i < |t|
    ensures t[i] in s
  {
    assert s[..|t|][i] == s[i];
  }

  lemma {:induction false} ContainsMeansIn(s: Text, t: Text)
    requires t != [] && Contains(s, t)
    ensures t[0] in s
  {
    if StartsWith(s, t) {
      StartsWithMeansIn(s, t, 0);
    } else {
      ContainsMeansIn(s[1..], t);
    }
  }

  /** The last three tests never fire: the first four decide. */
  lemma SafeFilenameExact(name: Text)
    ensures IsSafeFilename(name) <==> name != [] && 0x2F !in name && 0x5C !in name && name != [0x2E, 0x2E]
  {
    if name != [] && SLASH !in name && BACKSLASH !in name && name != DOTDOT {
      if StartsWith(name, DOTDOT + [SLASH]) {
        StartsWithMeansIn(name, DOTDOT + [SLASH], 2);
        assert false;
      }
      if Contains(name, [SLASH] + DOTDOT + [SLASH]) {
        ContainsMeansIn(name, [SLASH] + DOTDOT + [SLASH]);
        assert false;
      }
      if Contains(name, [BACKSLASH] + DOTDOT + [BACKSLASH]) {
        ContainsMeansIn(name, [BACKSLASH] + DOTDOT + [BACKSLASH]);
        assert false;
      }
    }
  }

  // -------------------------------------------------------------------------------- the machine

  const MAX_CHUNK := 2 * 64 * 1024

  // A checksum of a file's contents. Nothing about the protocol depends on which one it is.
  type Sum = seq<byte> -> bv32

  /** The receiver's variables between two packets, except its running checksum: END is judged
      on the checksum of what was written. */
  datatype Rx = Rx(disk: Disk, waitChunk: bool, out: Option<Text>, outExec: bool, done: nat)

  datatype Outcome = Outcome(code: int, files: Dir, done: nat)

  datatype Turn = Go(rx: Rx, rest: seq<byte>) | Stop(outcome: Outcome)

  function Start(disk: Disk): Rx {
    Rx(disk, false, None, false, 0)
  }

  /** The recv_error exit: the file being received, if any, is removed. */
  function Fail(rx: Rx): Turn {
    Stop(Outcome(1, if rx.out.Some? then Unlink(rx.disk.files, rx.out.value) else rx.disk.files, rx.done))
  }

  function OnMeta(rx: Rx, headerSize: nat, s: seq<byte>): Turn
    requires |s| >= COMMON_SIZE
  {
    if headerSize != META_SIZE || |s| < META_SIZE then Fail(rx)
    else
      var m := GetMeta(s[COMMON_SIZE..META_SIZE]);
      if !IsSafeFilename(m.name) then Fail(rx)
      else if m.name in rx.disk.blocked then Fail(rx.(out := None))
      else Go(Rx(rx.disk.(files := Create(rx.disk.files, m.name)), true, Some(m.name), m.exec != 0, rx.done),
              s[META_SIZE..])
  }

  function OnChunk(rx: Rx, headerSize: nat, s: seq<byte>): Turn
    requires |s| >= COMMON_SIZE
  {
    if !rx.waitChunk || rx.out.None? || headerSize != CHUNK_SIZE || |s| < CHUNK_SIZE then Fail(rx)
    else
      var size := GetChunkSize(s[COMMON_SIZE..CHUNK_SIZE]);
      if size == 0 || size > MAX_CHUNK || |s| < CHUNK_SIZE + size || size > rx.disk.room then Fail(rx)
      else
        var payload := s[CHUNK_SIZE..CHUNK_SIZE + size];
        Go(rx.(disk := rx.disk.(files := Append(rx.disk.files, rx.out.value, payload), room := rx.disk.room - size)),
           s[CHUNK_SIZE + size..])
  }

  function OnEnd(sum: Sum, rx: Rx, headerSize: nat, s: seq<byte>): Turn
    requires |s| >= COMMON_SIZE
  {
    if rx.out.None? || headerSize != END_SIZE || |s| < END_SIZE then Fail(rx)
    else
      var name := rx.out.value;
      var closed := rx.(out := None, waitChunk := false);
      if name !in rx.disk.files || GetEndChecksum(s[COMMON_SIZE..END_SIZE]) != sum(rx.disk.files[name].bytes) then
        Go(closed.(disk := rx.disk.(files := Unlink(rx.disk.files, name))), s[END_SIZE..])
      else
        Go(closed.(disk := rx.disk.(files := if rx.outExec then MakeExec(rx.disk.files, name) else rx.disk.files),
                   done := rx.done + 1),
           s[END_SIZE..])
  }

  /** One turn of the receive loop on the bytes that will still arrive. */
  function OnPacket(sum: Sum, rx: Rx, s: seq<byte>): (t: Turn)
    ensures t.Go? ==> |t.rest| < |s|
  {
    if |s| < COMMON_SIZE then Fail(rx)
    else
      var c := GetCommon(s[..COMMON_SIZE]);
      if c.magic != MAGIC then Fail(rx)
      else if c.pktType == RES_FILE_META then OnMeta(rx, c.headerSize, s)
      else if c.pktType == RES_FILE_CHUNK then OnChunk(rx, c.headerSize, s)
      else if c.pktType == RES_FILE_END then OnEnd(sum, rx, c.headerSize, s)
      else if c.pktType == RES_FILE_DONE then
        if c.headerSize < COMMON_SIZE then Fail(rx) else Stop(Outcome(0, rx.disk.files, rx.done))
      // RES_FILE_ERROR and unknown types leave alike: the open file goes, the result is 1.
      else Fail(rx)
  }

  function Run(sum: Sum, rx: Rx, s: seq<byte>): Outcome
    decreases |s|
  {
    match OnPacket(sum, rx, s)
    case Stop(outcome) => outcome
    case Go(rx', rest) => Run(sum, rx', rest)
  }

  lemma RunGo(sum: Sum, rx: Rx, s: seq<byte>, rx': Rx, rest: seq<byte>)
    requires OnPacket(sum, rx, s) == Go(rx', rest)
    ensures Run(sum, rx, s) == Run(sum, rx', rest)
  {
    hide OnPacket;
  }

  lemma RunStops(sum: Sum, rx: Rx, s: seq<byte>, outcome: Outcome)
    requires OnPacket(sum, rx, s) == Stop(outcome)
    ensures Run(sum, rx, s) == outcome
  {
    hide OnPacket;
  }

  // ------------------------------------------------------------------------- facts about any stream

  /** At every packet boundary the state variable and the open descriptor agree, and an open file
      is in the directory. */
  predicate Consistent(rx: Rx) {
    && (rx.waitChunk <==> rx.out.Some?)
    && (rx.out.Some? ==> rx.out.value in rx.disk.files && IsSafeFilename(rx.out.value))
  }

  lemma StartConsistent(disk: Disk)
    ensures Consistent(Start(disk))
  {
  }

  lemma OnPacketConsistent(sum: Sum, rx: Rx, s: seq<byte>)
    requires Consistent(rx) && OnPacket(sum, rx, s).Go?
    ensures Consistent(OnPacket(sum, rx, s).rx)
  {
  }

  /** The receiver after n packets of a stream; None if it has stopped by then. */
  function AfterPackets(sum: Sum, disk: Disk, s: seq<byte>, n: nat): Option<(Rx, seq<byte>)>
    decreases n
  {
    if n == 0 then Some((Start(disk), s))
    else
      match AfterPackets(sum, disk, s, n - 1)
      case None => None
      case Some(at) =>
        match OnPacket(sum, at.0, at.1)
        case Stop(_) => None
        case Go(rx, rest) => Some((rx, rest))
  }

  /** Whatever bytes arrive, the two agree after every packet. */
  lemma {:induction false} AlwaysConsistent(sum: Sum, disk: Disk, s: seq<byte>, n: nat)
    requires AfterPackets(sum, disk, s, n).Some?
    ensures Consistent(AfterPackets(sum, disk, s, n).value.0)
    decreases n
  {
    hide OnPacket, Consistent;
    if n == 0 {
      StartConsistent(disk);
    } else {
      var at := AfterPackets(sum, disk, s, n - 1).value;
      AlwaysConsistent(sum, disk, s, n - 1);
      OnPacketConsistent(sum, at.0, at.1);
    }
  }

  /** Two directories hold the same under a name. */
  predicate SameAt(a: Dir, b: Dir, name: Text) {
    (name in a <==> name in b) && (name in a ==> a[name] == b[name])
  }

  /** Whatever bytes arrive, nothing is ever created, changed or removed under a name with a
      directory separator, under "..", or under a name the directory refuses to open. */
  lemma {:induction false} OnlySafeNamesTouched(sum: Sum, rx: Rx, s: seq<byte>, name: Text)
    requires Consistent(rx)
    requires !IsSafeFilename(name) || (name in rx.disk.blocked && rx.out != Some(name))
    ensures SameAt(rx.disk.files, Run(sum, rx, s).files, name)
    decreases |s|
  {
    var t := OnPacket(sum, rx, s);
    if t.Go? {
      OnPacketConsistent(sum, rx, s);
      assert SameAt(rx.disk.files, t.rx.disk.files, name);
      assert t.rx.disk.blocked == rx.disk.blocked;
      OnlySafeNamesTouched(sum, t.rx, t.rest, name);
    }
  }
}
