/** What the receiver makes of a transfer that breaks off in the middle of a file, whose sender then
    still gets an ERROR packet onto the wire: a packet cut short swallows the beginning of the ERROR. */
module Interrupted {
  import opened Bytes
  import opened Wire
  import opened Options
  import opened Receiver
  import opened Distribution

  // --------------------------------------------------------------------------- the bytes of an ERROR

  function ErrorBytes(message: Text): (s: seq<byte>)
    ensures |s| == ERROR_SIZE
  {
    TailBytes(Failed(message))
  }

  /** A DONE header stands at position p. */
  predicate DoneAt(s: seq<byte>, p: nat) {
    && p + COMMON_SIZE <= |s|
    && var c := GetCommon(s[p..p + COMMON_SIZE]);
       c.magic == MAGIC && c.pktType == RES_FILE_DONE && c.headerSize >= COMMON_SIZE
  }

  /** The message, as it stands in its packet, has no DONE header in it. */
  predicate Harmless(message: Text) {
    forall p :: COMMON_SIZE <= p <= ERROR_SIZE - COMMON_SIZE ==> !DoneAt(ErrorBytes(message), p)
  }

  predicate MagicAt(s: seq<byte>, p: nat) {
    p + 4 <= |s| && GetU32(s[p..p + 4]) == MAGIC
  }

  const ERROR_HEAD: seq<byte> := [0x4D, 0x49, 0x4E, 0x49, VERSION, RES_FILE_ERROR, 0, ERROR_SIZE]

  lemma CommonBytes(pktType: byte, headerSize: nat)
    requires headerSize < 0x1_0000
    ensures PutCommon(pktType, headerSize) ==
            [0x4D, 0x49, 0x4E, 0x49, VERSION, pktType, headerSize / 256, headerSize % 256]
  {
  }

  lemma ErrorHead(message: Text)
    ensures ErrorBytes(message)[..COMMON_SIZE] == ERROR_HEAD
    ensures forall p :: 0 < p < COMMON_SIZE ==> ErrorBytes(message)[p] != 0x4D
  {
    CommonBytes(RES_FILE_ERROR, ERROR_SIZE);
    var e := ErrorBytes(message);
    hide PutCommon, PutText;
    forall p | 0 < p < COMMON_SIZE ensures e[p] == e[..COMMON_SIZE][p] {
    }
  }

  lemma MagicStarts(s: seq<byte>)
    requires |s| == 4 && GetU32(s) == MAGIC
    ensures s[0] == 0x4D
  {
  }

  /** The magic number stands in an ERROR packet at its start and, if at all, in the message. */
  lemma MagicInMessage(message: Text, p: nat)
    requires p > 0 && MagicAt(ErrorBytes(message), p)
    ensures p >= COMMON_SIZE
  {
    var e := ErrorBytes(message);
    ErrorHead(message);
    MagicStarts(e[p..p + 4]);
    hide ErrorBytes, GetU32;
    assert e[p..p + 4][0] == e[p];
  }

  lemma DoneHasMagic(s: seq<byte>, p: nat)
    requires DoneAt(s, p)
    ensures MagicAt(s, p)
  {
    assert s[p..p + COMMON_SIZE][..4] == s[p..p + 4];
  }

  /** In a text field the zeros are the bytes after the text. */
  lemma ZeroBytes(s: Text, width: nat, p: nat)
    requires NoZero(s) && p < width
    ensures PutText(s, width)[p] == 0 <==> p >= |Truncate(s, width)|
  {
    var t := Truncate(s, width);
    if p < |t| {
      assert t[p] in s;
    }
  }

  lemma ZerosAtEnd(message: Text, p: nat)
    requires NoZero(message) && COMMON_SIZE <= p < ERROR_SIZE - 1 && ErrorBytes(message)[p] == 0
    ensures ErrorBytes(message)[p + 1] == 0
  {
    hide PutCommon, PutText;
    ZeroBytes(message, ERROR_SIZE - COMMON_SIZE, p - COMMON_SIZE);
    ZeroBytes(message, ERROR_SIZE - COMMON_SIZE, p + 1 - COMMON_SIZE);
  }

  // ------------------------------------------------------------------------ success needs a DONE

  lemma RestIsSuffix(sum: Sum, rx: Rx, s: seq<byte>)
    requires OnPacket(sum, rx, s).Go?
    ensures var rest := OnPacket(sum, rx, s).rest; |rest| < |s| && rest == s[|s| - |rest|..]
  {
  }

  lemma StopsWith(sum: Sum, rx: Rx, s: seq<byte>)
    requires OnPacket(sum, rx, s).Stop?
    ensures var code := OnPacket(sum, rx, s).outcome.code; (code == 0 || code == 1) && (code == 0 ==> DoneAt(s, 0))
  {
  }

  /** Whatever bytes arrive, the receiver succeeds only if a DONE header is among them. */
  lemma {:induction false} SuccessNeedsDone(sum: Sum, rx: Rx, s: seq<byte>)
    ensures var code := Run(sum, rx, s).code; code == 0 || code == 1
    ensures Run(sum, rx, s).code == 0 ==> exists p: nat :: DoneAt(s, p)
    decreases |s|
  {
    hide OnPacket, DoneAt;
    match OnPacket(sum, rx, s)
    case Stop(outcome) => StopsWith(sum, rx, s);
    case Go(rx', rest) =>
      RestIsSuffix(sum, rx, s);
      SuccessNeedsDone(sum, rx', rest);
      if Run(sum, rx', rest).code == 0 {
        var p: nat :| DoneAt(rest, p);
        DoneLater(s, |s| - |rest|, p);
      }
  }

  lemma DoneLater(s: seq<byte>, k: nat, p: nat)
    requires k <= |s| && DoneAt(s[k..], p)
    ensures DoneAt(s, k + p)
  {
    assert s[k..][p..p + COMMON_SIZE] == s[k + p..k + p + COMMON_SIZE];
  }

  lemma DoneInWhole(s: seq<byte>, n: nat, p: nat)
    requires n <= |s| && DoneAt(s[..n], p)
    ensures DoneAt(s, p)
  {
    assert s[..n][p..p + COMMON_SIZE] == s[p..p + COMMON_SIZE];
  }

  lemma NoDoneAnywhere(message: Text, p: nat)
    requires Harmless(message) && p > 0
    ensures !DoneAt(ErrorBytes(message), p)
  {
    if DoneAt(ErrorBytes(message), p) {
      DoneHasMagic(ErrorBytes(message), p);
      MagicInMessage(message, p);
      hide ErrorBytes, MagicAt, GetCommon;
    }
  }

  /** What is left of an ERROR, once its beginning has been swallowed: if the message is harmless, it
      ends in failure, and if it is a C string, then at once: only DONE has a header that can stand
      in one, since the sizes of the others have a zero before their last byte. */
  lemma LeftOver(sum: Sum, rx: Rx, message: Text, n: nat, k: nat)
    requires 0 < k <= n <= ERROR_SIZE
    ensures Harmless(message) ==> Run(sum, rx, ErrorBytes(message)[..n][k..]).code == 1
    ensures NoZero(message) && Harmless(message) ==> Run(sum, rx, ErrorBytes(message)[..n][k..]) == Fail(rx).outcome
  {
    hide OnPacket, ErrorBytes, DoneAt, NoZero;
    var e := ErrorBytes(message);
    var s := e[..n][k..];
    SuccessNeedsDone(sum, rx, s);
    if Harmless(message) && Run(sum, rx, s).code == 0 {
      var p: nat :| DoneAt(s, p);
      DoneLater(e[..n], k, p);
      DoneInWhole(e, n, k + p);
      NoDoneAnywhere(message, k + p);
    }
    if NoZero(message) && Harmless(message) {
      LeftOverFails(sum, rx, message, n, k);
      RunStops(sum, rx, s, Fail(rx).outcome);
    }
  }

  lemma LeftOverFails(sum: Sum, rx: Rx, message: Text, n: nat, k: nat)
    requires 0 < k <= n <= ERROR_SIZE && NoZero(message) && Harmless(message)
    ensures OnPacket(sum, rx, ErrorBytes(message)[..n][k..]) == Fail(rx)
  {
    hide OnPacket, ErrorBytes, DoneAt, GetU32, NoZero;
    var e := ErrorBytes(message);
    var s := e[..n][k..];
    if |s| >= COMMON_SIZE && GetU32(s[..4]) == MAGIC {
      assert s[..4] == e[k..k + 4];
      MagicInMessage(message, k);
      if s[6] == 0 {
        ZerosAtEnd(message, k + 6);
        assert e[k + 7] == s[7];
      }
      if DoneAt(s, 0) {
        DoneLater(e[..n], k, 0);
        DoneInWhole(e, n, k);
        NoDoneAnywhere(message, k);
      }
    }
    NoPacket(sum, rx, s);
  }

  /** Bytes that no branch of the receive loop takes. */
  lemma NoPacket(sum: Sum, rx: Rx, s: seq<byte>)
    requires |s| >= COMMON_SIZE && GetU32(s[..4]) == MAGIC ==> (s[6] == 0 ==> s[7] == 0) && !DoneAt(s, 0)
    ensures OnPacket(sum, rx, s) == Fail(rx)
  {
    hide GetU32;
    if |s| >= COMMON_SIZE {
      assert s[..COMMON_SIZE][..4] == s[..4];
      assert s[0..COMMON_SIZE] == s[..COMMON_SIZE];
      assert s[..COMMON_SIZE][6..8] == s[6..8];
    }
  }

  // --------------------------------------------------------------- a packet cut short, then an ERROR

  /** What the first 8 bytes are when j of a header's have come and those of an ERROR follow. */
  lemma MixedHeader(message: Text, pktType: byte, headerSize: nat, j: nat, n: nat)
    requires 0 < j < COMMON_SIZE && n <= ERROR_SIZE && headerSize < 256
    ensures var s := PutCommon(pktType, headerSize)[..j] + ErrorBytes(message)[..n];
            |s| >= COMMON_SIZE ==>
              s[..COMMON_SIZE] ==
              [0x4D, 0x49, 0x4E, 0x49, VERSION, pktType, 0, headerSize][..j]
              + ERROR_HEAD[..COMMON_SIZE - j]
  {
    CommonBytes(pktType, headerSize);
    ErrorHead(message);
    hide PutCommon, ErrorBytes;
    var common, e := PutCommon(pktType, headerSize), ErrorBytes(message);
    var s := common[..j] + e[..n];
    if |s| >= COMMON_SIZE {
      assert s[..COMMON_SIZE] == common[..j] + e[..COMMON_SIZE][..COMMON_SIZE - j];
    }
  }

  lemma Fields(s: seq<byte>)
    requires |s| == COMMON_SIZE
    ensures GetCommon(s) == Common(((s[0] as int * 256 + s[1] as int) * 256 + s[2] as int) * 256 + s[3] as int,
                                   s[4], s[5], s[6] as int * 256 + s[7] as int)
  {
    assert s[..4][..2] == s[..2] && s[..4][2..] == s[2..4];
  }

  /** A header cut short is never completed by the beginning of an ERROR. */
  lemma MixedHeaderFails(sum: Sum, rx: Rx, message: Text, pktType: byte, headerSize: nat, j: nat, n: nat)
    requires 0 < j < COMMON_SIZE && n <= ERROR_SIZE
    requires || (pktType == RES_FILE_META && headerSize == META_SIZE)
             || (pktType == RES_FILE_CHUNK && headerSize == CHUNK_SIZE)
             || (pktType == RES_FILE_END && headerSize == END_SIZE)
    ensures OnPacket(sum, rx, PutCommon(pktType, headerSize)[..j] + ErrorBytes(message)[..n]) == Fail(rx)
  {
    var s := PutCommon(pktType, headerSize)[..j] + ErrorBytes(message)[..n];
    MixedHeader(message, pktType, headerSize, j, n);
    hide PutCommon, ErrorBytes, GetCommon;
    if |s| >= COMMON_SIZE {
      Fields(s[..COMMON_SIZE]);
    }
  }

  /** A header that is complete decides which branch takes the packet. */
  lemma Dispatch(sum: Sum, rx: Rx, pktType: byte, headerSize: nat, body: seq<byte>)
    requires headerSize < 0x1_0000
    ensures var s := PutCommon(pktType, headerSize) + body;
            && (pktType == RES_FILE_META ==> OnPacket(sum, rx, s) == OnMeta(rx, headerSize, s))
            && (pktType == RES_FILE_CHUNK ==> OnPacket(sum, rx, s) == OnChunk(rx, headerSize, s))
            && (pktType == RES_FILE_END ==> OnPacket(sum, rx, s) == OnEnd(sum, rx, headerSize, s))
  {
    CommonAt(PutCommon(pktType, headerSize) + body, pktType, headerSize, body);
    hide PutCommon, GetCommon, OnMeta, OnChunk, OnEnd;
  }

  lemma PartialMetaShape(sum: Sum, rx: Rx, m: Meta, j: nat, e: seq<byte>)
    requires COMMON_SIZE <= j < META_SIZE
    ensures var s := MetaBytes(m)[..j] + e;
            |s| == j + |e| && s[j..] == e && OnPacket(sum, rx, s) == OnMeta(rx, META_SIZE, s)
  {
    hide OnPacket, PutCommon, PutMeta, OnMeta;
    var body := PutMeta(m)[..j - COMMON_SIZE] + e;
    assert MetaBytes(m)[..j] + e == PutCommon(RES_FILE_META, META_SIZE) + body;
    Dispatch(sum, rx, RES_FILE_META, META_SIZE, body);
  }

  /** The name in a META of which the first i bytes of the name field have come, and then an ERROR: what
      has come of the name and the ERROR's first bytes, cut to 127 bytes, or the whole name. */
  function SwallowedName(name: Text, i: nat): Text {
    if i <= |name| then Truncate(name[..i] + ERROR_HEAD[..6], MAX_FILENAME) else name
  }

  lemma TextIs(t: Text, f: seq<byte>)
    requires NoZero(t) && |t| <= |f| && f[..|t|] == t && (|t| < |f| ==> f[|t|] == 0)
    ensures GetText(f) == t
  {
    assert f == t + f[|t|..];
    GetTextOf(t, f[|t|..]);
  }

  lemma SwallowedHasNoZero(name: Text, i: nat)
    requires NoZero(name)
    ensures NoZero(SwallowedName(name, i))
  {
  }

  lemma NameSwallows(name: Text, i: nat, f: seq<byte>, e: seq<byte>)
    requires NoZero(name) && |name| < MAX_FILENAME && |f| == MAX_FILENAME - 1
    requires |e| >= COMMON_SIZE && e[..COMMON_SIZE] == ERROR_HEAD && i + |e| >= MAX_FILENAME - 1
    requires forall x :: 0 <= x < MAX_FILENAME - 1 ==>
               f[x] == if x < i then PutText(name, MAX_FILENAME)[x] else e[x - i]
    ensures GetText(f) == SwallowedName(name, i)
  {
    var t := SwallowedName(name, i);
    SwallowedHasNoZero(name, i);
    hide GetText, NoZero;
    forall x | 0 <= x < |t| ensures f[x] == t[x] {
      assert x >= i ==> e[x - i] == e[..COMMON_SIZE][x - i];
    }
    assert f[..|t|] == t;
    assert e[..COMMON_SIZE][6] == e[6];
    TextIs(t, f);
  }

  lemma MetaNameAt(m: Meta, x: nat)
    requires x < MAX_FILENAME
    ensures MetaBytes(m)[COMMON_SIZE + x] == PutText(m.name, MAX_FILENAME)[x]
  {
    hide PutCommon, PutText, PutU32;
  }

  lemma MetaSwallows(m: Meta, j: nat, message: Text, n: nat)
    requires NoZero(m.name) && |m.name| < MAX_FILENAME
    requires COMMON_SIZE <= j < META_SIZE <= j + n && n <= ERROR_SIZE
    ensures var s := MetaBytes(m)[..j] + ErrorBytes(message)[..n];
            GetMeta(s[COMMON_SIZE..META_SIZE]).name == SwallowedName(m.name, j - COMMON_SIZE)
  {
    ErrorHead(message);
    var e, i := ErrorBytes(message), j - COMMON_SIZE;
    var s := MetaBytes(m)[..j] + e[..n];
    hide ErrorBytes, MetaBytes, PutText, GetText, SwallowedName;
    var f := s[COMMON_SIZE..META_SIZE][..MAX_FILENAME - 1];
    forall x | 0 <= x < MAX_FILENAME - 1
      ensures f[x] == if x < i then PutText(m.name, MAX_FILENAME)[x] else e[x - i]
    {
      MetaNameAt(m, x);
      assert f[x] == s[COMMON_SIZE + x];
    }
    NameSwallows(m.name, i, f, e);
  }

  /** The name of the file that is created, and removed again, when a META is cut after k bytes and
      n bytes of an ERROR follow, if there is one. */
  function Swallowed(disk: Disk, name: Text, k: nat, n: nat): set<Text> {
    if k < COMMON_SIZE || k + n < META_SIZE || Refuses(disk, SwallowedName(name, k - COMMON_SIZE)) then {}
    else {SwallowedName(name, k - COMMON_SIZE)}
  }

  lemma MetaTaken(rx: Rx, s: seq<byte>, name: Text)
    requires Idle(rx) && |s| >= META_SIZE && GetMeta(s[COMMON_SIZE..META_SIZE]).name == name
    ensures var t := OnMeta(rx, META_SIZE, s);
            if Refuses(rx.disk, name) then t == Fail(rx)
            else && t.Go? && t.rest == s[META_SIZE..] && t.rx.done == rx.done
                 && t.rx.out == Some(name) && t.rx.disk.files == Create(rx.disk.files, name)
  {
    hide GetMeta, IsSafeFilename, Create;
  }

  lemma MetaTooShort(rx: Rx, s: seq<byte>)
    requires COMMON_SIZE <= |s| < META_SIZE
    ensures OnMeta(rx, META_SIZE, s) == Fail(rx)
  {
  }

  /** A META completed by the beginning of an ERROR creates a file, if its name is accepted. */
  lemma PartialMeta(sum: Sum, rx: Rx, m: Meta, j: nat, message: Text, n: nat)
    requires NoZero(m.name) && |m.name| < MAX_FILENAME
    requires Idle(rx) && COMMON_SIZE <= j < META_SIZE && n <= ERROR_SIZE
    ensures var e := ErrorBytes(message)[..n];
            var t := OnPacket(sum, rx, MetaBytes(m)[..j] + e);
            if Swallowed(rx.disk, m.name, j, n) == {} then t == Fail(rx)
            else && t.Go? && |t.rest| < |e| && t.rest == e[|e| - |t.rest|..] && t.rx.done == rx.done && t.rx.out.Some?
                 && Swallowed(rx.disk, m.name, j, n) == {t.rx.out.value}
                 && t.rx.disk.files == Create(rx.disk.files, t.rx.out.value)
  {
    hide OnPacket, OnMeta, GetMeta, MetaBytes, ErrorBytes, Create, Fail, Refuses, SwallowedName;
    var e := ErrorBytes(message)[..n];
    var s := MetaBytes(m)[..j] + e;
    PartialMetaShape(sum, rx, m, j, e);
    if |s| < META_SIZE {
      MetaTooShort(rx, s);
    } else {
      MetaSwallows(m, j, message, n);
      MetaTaken(rx, s, SwallowedName(m.name, j - COMMON_SIZE));
      TakenBeyond(s, j, e, META_SIZE);
    }
  }

  lemma PartialChunkShape(sum: Sum, rx: Rx, payload: seq<byte>, offset: nat, j: nat, e: seq<byte>)
    requires COMMON_SIZE <= j < CHUNK_SIZE + |payload| && |payload| <= MAX_CHUNK
    ensures var s := ChunkBytes(payload, offset)[..j] + e;
            && |s| == j + |e| && s[j..] == e && OnPacket(sum, rx, s) == OnChunk(rx, CHUNK_SIZE, s)
            && (j >= CHUNK_SIZE ==> GetChunkSize(s[COMMON_SIZE..CHUNK_SIZE]) == |payload|)
  {
    hide OnPacket, PutCommon, PutChunk, GetChunkSize, OnChunk;
    var hdr := PutChunk(|payload|, offset);
    var s, body := ChunkBytes(payload, offset)[..j] + e, (hdr + payload)[..j - COMMON_SIZE] + e;
    assert s == PutCommon(RES_FILE_CHUNK, CHUNK_SIZE) + body;
    Dispatch(sum, rx, RES_FILE_CHUNK, CHUNK_SIZE, body);
    ChunkRoundTrip(|payload|, offset);
    if j >= CHUNK_SIZE {
      assert s[COMMON_SIZE..CHUNK_SIZE] == hdr;
    }
  }

  lemma TakenBeyond(s: seq<byte>, j: nat, e: seq<byte>, taken: nat)
    requires |s| == j + |e| && s[j..] == e && j < taken <= |s|
    ensures s[taken..] == e[taken - j..]
  {
  }

  lemma ChunkRefused(rx: Rx, s: seq<byte>)
    requires |s| >= COMMON_SIZE && OnChunk(rx, CHUNK_SIZE, s).Stop?
    ensures OnChunk(rx, CHUNK_SIZE, s) == Fail(rx)
  {
  }

  /** A CHUNK completed by the beginning of what follows adds some bytes to the file. */
  lemma PartialChunk(sum: Sum, rx: Rx, payload: seq<byte>, offset: nat, j: nat, e: seq<byte>)
    requires rx.out.Some? && COMMON_SIZE <= j < CHUNK_SIZE + |payload| && |payload| <= MAX_CHUNK
    ensures var t := OnPacket(sum, rx, ChunkBytes(payload, offset)[..j] + e);
            && (t.Stop? ==> t == Fail(rx))
            && (t.Go? ==> && |t.rest| < |e| && t.rest == e[|e| - |t.rest|..]
                          && exists got: seq<byte> :: |got| <= rx.disk.room && t.rx == AfterChunk(rx, got))
  {
    hide OnPacket, ChunkBytes, AfterChunk, GetChunkSize, OnChunk;
    var s := ChunkBytes(payload, offset)[..j] + e;
    PartialChunkShape(sum, rx, payload, offset, j, e);
    if OnChunk(rx, CHUNK_SIZE, s).Go? {
      ChunkTaken(rx, s);
      TakenBeyond(s, j, e, CHUNK_SIZE + GetChunkSize(s[COMMON_SIZE..CHUNK_SIZE]));
    } else {
      ChunkRefused(rx, s);
    }
  }

  lemma ChunkTaken(rx: Rx, s: seq<byte>)
    requires |s| >= COMMON_SIZE && OnChunk(rx, CHUNK_SIZE, s).Go?
    ensures |s| >= CHUNK_SIZE && rx.out.Some?
    ensures var size := GetChunkSize(s[COMMON_SIZE..CHUNK_SIZE]);
            && 1 <= size <= rx.disk.room && CHUNK_SIZE + size <= |s|
            && OnChunk(rx, CHUNK_SIZE, s) ==
               Go(AfterChunk(rx, s[CHUNK_SIZE..CHUNK_SIZE + size]), s[CHUNK_SIZE + size..])
  {
  }

  /** The checksum in an END of which j bytes have come, and then an ERROR. */
  function SwallowedChecksum(checksum: bv32, j: nat): bv32
    requires COMMON_SIZE <= j <= END_SIZE
  {
    GetEndChecksum(PutEnd(checksum, 0)[..j - COMMON_SIZE] + ERROR_HEAD[..END_SIZE - j])
  }

  /** An END completed by the beginning of an ERROR. */
  lemma PartialEnd(sum: Sum, rx: Rx, checksum: bv32, j: nat, message: Text, n: nat)
    requires rx.out.Some? && COMMON_SIZE <= j < END_SIZE && n <= ERROR_SIZE
    ensures var e := ErrorBytes(message)[..n];
            OnPacket(sum, rx, EndBytes(checksum)[..j] + e) ==
            if j + n < END_SIZE then Fail(rx)
            else Go(AfterEnd(sum, rx, SwallowedChecksum(checksum, j)), e[END_SIZE - j..])
  {
    ErrorHead(message);
    hide OnPacket, PutCommon, PutEnd, GetEndChecksum, ErrorBytes;
    var e, hdr, common := ErrorBytes(message)[..n], PutEnd(checksum, 0), PutCommon(RES_FILE_END, END_SIZE);
    var s, body := EndBytes(checksum)[..j] + e, hdr[..j - COMMON_SIZE] + e;
    assert s == common + body;
    Dispatch(sum, rx, RES_FILE_END, END_SIZE, body);
    if |s| >= END_SIZE {
      var read, rest := hdr[..j - COMMON_SIZE] + e[..END_SIZE - j], e[END_SIZE - j..];
      assert e[..END_SIZE - j] == ERROR_HEAD[..END_SIZE - j] by {
        assert e[..END_SIZE - j] == ErrorBytes(message)[..COMMON_SIZE][..END_SIZE - j];
      }
      assert s == common + (read + rest);
      OnEndAt(sum, rx, s, common, read, rest, SwallowedChecksum(checksum, j));
    }
  }

  // ----------------------------------------------------------- one file broken off, then an ERROR

  /** The packet at hand is refused, or completed by the beginning of an ERROR. */
  lemma RunSwallowing(sum: Sum, rx: Rx, s: seq<byte>, message: Text, n: nat)
    requires n <= ERROR_SIZE
    requires var (t, e) := (OnPacket(sum, rx, s), ErrorBytes(message)[..n]);
             t.Go? ==> |t.rest| < |e| && t.rest == e[|e| - |t.rest|..]
    ensures var t := OnPacket(sum, rx, s);
            if t.Stop? then Run(sum, rx, s) == t.outcome
            else && (Harmless(message) ==> Run(sum, rx, s).code == 1)
                 && (NoZero(message) && Harmless(message) ==> Run(sum, rx, s) == Fail(t.rx).outcome)
  {
    hide OnPacket, ErrorBytes, Harmless, NoZero;
    match OnPacket(sum, rx, s)
    case Stop(outcome) => RunStops(sum, rx, s, outcome);
    case Go(rx', rest) =>
      RunGo(sum, rx, s, rx', rest);
      LeftOver(sum, rx', message, n, n - |rest|);
  }

  /** An ERROR at a packet boundary, whole or cut, ends the transfer. */
  lemma RunError(sum: Sum, rx: Rx, message: Text, n: nat)
    requires n <= ERROR_SIZE
    ensures Run(sum, rx, ErrorBytes(message)[..n]) == Fail(rx).outcome
  {
    CutPacket(sum, rx, RES_FILE_ERROR, ERROR_SIZE, PutText(message, ERROR_SIZE - COMMON_SIZE), n);
    RunStops(sum, rx, ErrorBytes(message)[..n], Fail(rx).outcome);
    hide OnPacket;
  }

  lemma UnlinkCreated(files: Dir, name: Text)
    ensures Unlink(Create(files, name), name) == files - {name}
  {
  }

  /** Broken off in a META: at most one file is removed. */
  lemma BrokenMeta(sum: Sum, rx: Rx, m: Meta, j: nat, message: Text, n: nat)
    requires Idle(rx) && NoZero(m.name) && |m.name| < MAX_FILENAME && j < META_SIZE && n <= ERROR_SIZE
    ensures var o := Run(sum, rx, MetaBytes(m)[..j] + ErrorBytes(message)[..n]);
            && (Harmless(message) ==> o.code == 1)
            && (NoZero(message) && Harmless(message) ==>
                  o == Outcome(1, rx.disk.files - Swallowed(rx.disk, m.name, j, n), rx.done))
  {
    hide Run, OnPacket, PutCommon, ErrorBytes, Harmless, NoZero, Create, Unlink, Refuses, SwallowedName;
    var e := ErrorBytes(message)[..n];
    var s := MetaBytes(m)[..j] + e;
    if j == 0 {
      assert s == e;
      RunError(sum, rx, message, n);
    } else {
      if j < COMMON_SIZE {
        assert MetaBytes(m)[..j] == PutCommon(RES_FILE_META, META_SIZE)[..j];
        MixedHeaderFails(sum, rx, message, RES_FILE_META, META_SIZE, j, n);
      } else {
        PartialMeta(sum, rx, m, j, message, n);
      }
      RunSwallowing(sum, rx, s, message, n);
      var t := OnPacket(sum, rx, s);
      if t.Go? {
        UnlinkCreated(rx.disk.files, t.rx.out.value);
      }
    }
  }

  /** Broken off in a chunk: what has come of the file is removed. */
  lemma BrokenChunk(sum: Sum, rx: Rx, prior: Dir, name: Text, got: seq<byte>, exec: bool,
                    payload: seq<byte>, offset: nat, j: nat, message: Text, n: nat)
    requires Receiving(rx, prior, name, got, exec)
    requires |payload| <= MAX_CHUNK && j < CHUNK_SIZE + |payload| && n <= ERROR_SIZE
    ensures var o := Run(sum, rx, ChunkBytes(payload, offset)[..j] + ErrorBytes(message)[..n]);
            && (Harmless(message) ==> o.code == 1)
            && (NoZero(message) && Harmless(message) ==> o == Outcome(1, Unlink(prior, name), rx.done))
  {
    hide Run, OnPacket, PutCommon, ErrorBytes, Harmless, NoZero, Unlink, AfterChunk;
    var e := ErrorBytes(message)[..n];
    var s := ChunkBytes(payload, offset)[..j] + e;
    FailReceiving(rx, prior, name, got, exec);
    if j == 0 {
      assert s == e;
      RunError(sum, rx, message, n);
    } else {
      if j < COMMON_SIZE {
        assert ChunkBytes(payload, offset)[..j] == PutCommon(RES_FILE_CHUNK, CHUNK_SIZE)[..j];
        MixedHeaderFails(sum, rx, message, RES_FILE_CHUNK, CHUNK_SIZE, j, n);
      } else {
        PartialChunk(sum, rx, payload, offset, j, e);
      }
      RunSwallowing(sum, rx, s, message, n);
      var t := OnPacket(sum, rx, s);
      if t.Go? {
        var more: seq<byte> :| |more| <= rx.disk.room && t.rx == AfterChunk(rx, more);
        ChunkReceived(rx, prior, name, got, exec, more);
        FailReceiving(t.rx, prior, name, got + more, exec);
      }
    }
  }

  /** The file as it was sent, under its name. */
  function Whole(prior: Dir, d: Delivery): Dir {
    prior[d.meta.name := File(Concat(d.chunks), d.meta.exec != 0 || (d.meta.name in prior && prior[d.meta.name].exec))]
  }

  /** Broken off in the END: the file is removed or, if a checksum that fits has come, it stays, whole. */
  lemma BrokenEnd(sum: Sum, rx: Rx, prior: Dir, d: Delivery, j: nat, message: Text, n: nat)
    requires Receiving(rx, prior, d.meta.name, Concat(d.chunks), d.meta.exec != 0)
    requires j < END_SIZE && n <= ERROR_SIZE
    ensures var o := Run(sum, rx, EndBytes(d.checksum)[..j] + ErrorBytes(message)[..n]);
            && (Harmless(message) ==> o.code == 1)
            && (NoZero(message) && Harmless(message) ==>
                  o == if EndSwallowed(sum, d, j, n) then Outcome(1, Whole(prior, d), rx.done + 1)
                       else Outcome(1, Unlink(prior, d.meta.name), rx.done))
  {
    hide Run, OnPacket, PutCommon, ErrorBytes, Harmless, NoZero, Unlink, AfterEnd, SwallowedChecksum;
    var e := ErrorBytes(message)[..n];
    var s := EndBytes(d.checksum)[..j] + e;
    FailReceiving(rx, prior, d.meta.name, Concat(d.chunks), d.meta.exec != 0);
    if j == 0 {
      assert s == e;
      RunError(sum, rx, message, n);
    } else {
      if j < COMMON_SIZE {
        assert EndBytes(d.checksum)[..j] == PutCommon(RES_FILE_END, END_SIZE)[..j];
        MixedHeaderFails(sum, rx, message, RES_FILE_END, END_SIZE, j, n);
      } else {
        PartialEnd(sum, rx, d.checksum, j, message, n);
        EndsWith(sum, rx, prior, d, SwallowedChecksum(d.checksum, j));
      }
      RunSwallowing(sum, rx, s, message, n);
    }
  }

  /** An END of which j bytes have come is completed by n bytes of an ERROR, with a checksum that fits. */
  predicate EndSwallowed(sum: Sum, d: Delivery, j: nat, n: nat) {
    COMMON_SIZE <= j < END_SIZE <= j + n && SwallowedChecksum(d.checksum, j) == sum(Concat(d.chunks))
  }

  /** END with any checksum removes the file or keeps it as it was sent. */
  lemma EndsWith(sum: Sum, rx: Rx, prior: Dir, d: Delivery, c: bv32)
    requires Receiving(rx, prior, d.meta.name, Concat(d.chunks), d.meta.exec != 0)
    ensures Fail(AfterEnd(sum, rx, c)).outcome ==
            if c == sum(Concat(d.chunks)) then Outcome(1, Whole(prior, d), rx.done + 1)
            else Outcome(1, Unlink(prior, d.meta.name), rx.done)
  {
    EndInstalls(sum, rx, prior, d.(checksum := c));
    hide Unlink, MakeExec;
  }

  lemma TakeThen(a: seq<byte>, b: seq<byte>, n: nat, e: seq<byte>)
    requires n <= |a| + |b|
    ensures n <= |a| ==> (a + b)[..n] + e == a[..n] + e
    ensures n >= |a| ==> (a + b)[..n] + e == a + (b[..n - |a|] + e)
  {
  }

  /** Broken off among the chunks, whether or not there is room for them. */
  lemma {:induction false} BrokenChunks(sum: Sum, rx: Rx, prior: Dir, name: Text, got: seq<byte>, exec: bool,
                                        chunks: seq<seq<byte>>, offset: nat, k: nat, message: Text, n: nat)
    requires Receiving(rx, prior, name, got, exec) && ValidChunks(chunks)
    requires k < |ChunksBytes(chunks, offset)| && n <= ERROR_SIZE
    ensures var o := Run(sum, rx, ChunksBytes(chunks, offset)[..k] + ErrorBytes(message)[..n]);
            && (Harmless(message) ==> o.code == 1)
            && (NoZero(message) && Harmless(message) ==> o == Outcome(1, Unlink(prior, name), rx.done))
    decreases |chunks|
  {
    hide Run, OnPacket, ChunkBytes, AfterChunk, ErrorBytes, Harmless, NoZero, Unlink;
    var payload, later := chunks[0], chunks[1..];
    var first, rest, e := ChunkBytes(payload, offset), ChunksBytes(later, offset + |payload|), ErrorBytes(message)[..n];
    assert payload in chunks;
    TakeThen(first, rest, k, e);
    if k < |first| {
      BrokenChunk(sum, rx, prior, name, got, exec, payload, offset, k, message, n);
    } else {
      var after := rest[..k - |first|] + e;
      if |payload| > rx.disk.room {
        ChunkTooLarge(sum, rx, payload, offset, after);
        RunStops(sum, rx, first + after, Fail(rx).outcome);
        FailReceiving(rx, prior, name, got, exec);
      } else {
        ChunkTurn(sum, rx, payload, offset, after);
        RunGo(sum, rx, first + after, AfterChunk(rx, payload), after);
        ChunkReceived(rx, prior, name, got, exec, payload);
        BrokenChunks(sum, AfterChunk(rx, payload), prior, name, got + payload, exec, later, offset + |payload|,
                     k - |first|, message, n);
      }
    }
  }

  /** The directory takes the file, and its END is completed by the ERROR with a checksum that fits. */
  predicate KeptWhole(sum: Sum, disk: Disk, d: Delivery, k: nat, n: nat) {
    var beforeEnd := |DeliveryBytes(d)| - END_SIZE;
    |Concat(d.chunks)| <= disk.room && k >= beforeEnd && EndSwallowed(sum, d, k - beforeEnd, n)
  }

  /** How a transfer ends when its sender fails k bytes into file d and then gets n bytes of an ERROR
      through: without the file or, if a checksum that fits has come, with all of it; never with a part.
      Broken off in the META, an older file of that name, or of one that begins like it, may be gone. */
  function Aftermath(sum: Sum, disk: Disk, done: nat, d: Delivery, k: nat, n: nat): Outcome {
    var name := d.meta.name;
    if k < META_SIZE then Outcome(1, disk.files - Swallowed(disk, name, k, n), done)
    else if Refuses(disk, name) then Outcome(1, disk.files, done)
    else if KeptWhole(sum, disk, d, k, n) then Outcome(1, Whole(disk.files, d), done + 1)
    else Outcome(1, Unlink(disk.files, name), done)
  }

  /** Broken off anywhere in a file, whether or not the directory takes it, whatever has come of the
      ERROR. */
  lemma BrokenDelivery(sum: Sum, rx: Rx, d: Delivery, k: nat, message: Text, n: nat)
    requires Idle(rx) && WellFormed(d) && k < |DeliveryBytes(d)| && n <= ERROR_SIZE
    ensures var o := Run(sum, rx, DeliveryBytes(d)[..k] + ErrorBytes(message)[..n]);
            && (Harmless(message) ==> o.code == 1)
            && (NoZero(message) && Harmless(message) ==> o == Aftermath(sum, rx.disk, rx.done, d, k, n))
  {
    hide Run, OnPacket, MetaBytes, EndBytes, ChunksBytes, ErrorBytes, Harmless, IsSafeFilename;
    hide Unlink, Create, Whole, Swallowed, EndSwallowed;
    var first, after := MetaBytes(d.meta), ChunksBytes(d.chunks, 0) + EndBytes(d.checksum);
    var e := ErrorBytes(message)[..n];
    TakeThen(first, after, k, e);
    if k < META_SIZE {
      BrokenMeta(sum, rx, d.meta, k, message, n);
    } else if Refuses(rx.disk, d.meta.name) {
      MetaRefused(sum, rx, d.meta, after[..k - META_SIZE] + e);
    } else {
      BrokenBody(sum, rx, d, k, message, n);
    }
  }

  /** Broken off after the META of a file that could be created. */
  lemma BrokenBody(sum: Sum, rx: Rx, d: Delivery, k: nat, message: Text, n: nat)
    requires Idle(rx) && WellFormed(d) && META_SIZE <= k < |DeliveryBytes(d)| && n <= ERROR_SIZE
    requires !Refuses(rx.disk, d.meta.name)
    ensures var after := ChunksBytes(d.chunks, 0) + EndBytes(d.checksum);
            var o := Run(sum, rx, MetaBytes(d.meta) + (after[..k - META_SIZE] + ErrorBytes(message)[..n]));
            && (Harmless(message) ==> o.code == 1)
            && (NoZero(message) && Harmless(message) ==> o == Aftermath(sum, rx.disk, rx.done, d, k, n))
  {
    hide Run, OnPacket, MetaBytes, EndBytes, ChunksBytes, ErrorBytes, Harmless, IsSafeFilename;
    hide Unlink, Create, Whole, Swallowed, EndSwallowed;
    var prior, name, exec := rx.disk.files, d.meta.name, d.meta.exec != 0;
    var chunks, end, m := ChunksBytes(d.chunks, 0), EndBytes(d.checksum), k - META_SIZE;
    var e := ErrorBytes(message)[..n];
    var after := (chunks + end)[..m] + e;
    MetaTurn(sum, rx, d.meta, after);
    var rx1 := Rx(rx.disk.(files := Create(rx.disk.files, name)), true, Some(name), exec, rx.done);
    RunGo(sum, rx, MetaBytes(d.meta) + after, rx1, after);
    CreatedIsReceiving(rx1, prior, name, exec);
    TakeThen(chunks, end, m, e);
    if m < |chunks| {
      BrokenChunks(sum, rx1, prior, name, [], exec, d.chunks, 0, m, message, n);
    } else {
      var j := m - |chunks|;
      if |Concat(d.chunks)| <= rx.disk.room {
        var rx2 := RunChunks(sum, rx1, prior, name, [], exec, d.chunks, 0, end[..j] + e);
        assert [] + Concat(d.chunks) == Concat(d.chunks);
        BrokenEnd(sum, rx2, prior, d, j, message, n);
      } else {
        NoRoom(sum, rx1, prior, name, [], exec, d.chunks, 0, end[..j] + e);
      }
    }
  }

  lemma CreatedIsReceiving(rx: Rx, prior: Dir, name: Text, exec: bool)
    requires rx.waitChunk && rx.out == Some(name) && rx.outExec == exec && rx.disk.files == Create(prior, name)
    ensures Receiving(rx, prior, name, [], exec)
  {
  }

  /** The directory after these files. */
  function After(sum: Sum, disk: Disk, ds: seq<Delivery>): Disk
    requires Volume(ds) <= disk.room
  {
    Disk(InstallAll(sum, disk.files, ds), disk.blocked, disk.room - Volume(ds))
  }

  /** A transfer that breaks off k bytes into file d, after the files ds. With a harmless message the
      client reports the failure and is left with the files before d and no part of d. */
  lemma BrokenTransfer(sum: Sum, disk: Disk, ds: seq<Delivery>, d: Delivery, k: nat, message: Text, n: nat)
    requires Accepts(disk, ds) && WellFormed(d) && k < |DeliveryBytes(d)| && n <= ERROR_SIZE
    ensures var o := Run(sum, Start(disk), DeliveriesBytes(ds) + (DeliveryBytes(d)[..k] + ErrorBytes(message)[..n]));
            && (Harmless(message) ==> o.code == 1)
            && (NoZero(message) && Harmless(message) ==>
                  o == Aftermath(sum, After(sum, disk, ds), Intact(sum, ds), d, k, n))
  {
    hide Run, OnPacket, DeliveryBytes, DeliveriesBytes, ErrorBytes, Harmless, Aftermath, WellFormed;
    var rx := RunDeliveries(sum, Start(disk), ds, DeliveryBytes(d)[..k] + ErrorBytes(message)[..n]);
    BrokenDelivery(sum, rx, d, k, message, n);
  }

  // ------------------------------------------------------------------------- when the client is misled

  /** The last chunk of a file is cut p bytes short of its end, and the message has a DONE header at
      place p: the client takes the first p bytes of the ERROR for the rest of the chunk, and then
      reports success. */
  lemma Misled(sum: Sum, rx: Rx, d: Delivery, past: seq<seq<byte>>, c: seq<byte>, message: Text, p: nat)
    requires Idle(rx) && Valid(d) && d.meta.name !in rx.disk.blocked && |Concat(d.chunks)| <= rx.disk.room
    requires d.chunks == past + [c] && p <= |c| && p <= ERROR_SIZE && DoneAt(ErrorBytes(message), p)
    ensures var k := META_SIZE + |ChunksBytes(past, 0)| + CHUNK_SIZE + |c| - p;
            var got := Concat(past) + (c[..|c| - p] + ErrorBytes(message)[..p]);
            var name, prior := d.meta.name, rx.disk.files;
            && k < |DeliveryBytes(d)|
            && Run(sum, rx, DeliveryBytes(d)[..k] + ErrorBytes(message)) ==
               Outcome(0, prior[name := File(got, name in prior && prior[name].exec)], rx.done)
  {
    hide Run, OnPacket, MetaBytes, EndBytes, ChunkBytes, ErrorBytes, DoneAt, Create, AfterChunk;
    var prior, name, exec := rx.disk.files, d.meta.name, d.meta.exec != 0;
    var e, payload := ErrorBytes(message), c[..|c| - p] + ErrorBytes(message)[..p];
    var offset := |Concat(past)|;
    LastChunk(d, past, c);
    LastChunkCut(d, past, c, e, p);
    var left := ChunkBytes(payload, offset) + e[p..];
    var after := ChunksBytes(past, 0) + left;
    MetaTurn(sum, rx, d.meta, after);
    var rx1 := Rx(rx.disk.(files := Create(rx.disk.files, name)), true, Some(name), exec, rx.done);
    RunGo(sum, rx, MetaBytes(d.meta) + after, rx1, after);
    CreatedIsReceiving(rx1, prior, name, exec);
    var rx2 := RunChunks(sum, rx1, prior, name, [], exec, past, 0, left);
    assert [] + Concat(past) == Concat(past);
    ChunkTurn(sum, rx2, payload, offset, e[p..]);
    RunGo(sum, rx2, left, AfterChunk(rx2, payload), e[p..]);
    ChunkReceived(rx2, prior, name, Concat(past), exec, payload);
    DoneEnds(sum, AfterChunk(rx2, payload), e, p);
  }

  lemma LastChunk(d: Delivery, past: seq<seq<byte>>, c: seq<byte>)
    requires d.chunks == past + [c] && ValidChunks(d.chunks)
    ensures ValidChunks(past) && 1 <= |c| <= MAX_CHUNK && |Concat(d.chunks)| == |Concat(past)| + |c|
    ensures ChunksBytes(d.chunks, 0) == ChunksBytes(past, 0) + ChunkBytes(c, |Concat(past)|)
  {
    assert c in d.chunks;
    forall x | x in past ensures x in d.chunks {
    }
    hide ChunkBytes, ChunksBytes;
    ConcatAppend(past, [c]);
    ChunksAppend(past, [c], 0);
    ChunksCons(c, [], |Concat(past)|);
    assert [c] + [] == [c] && Concat([c]) == c + [];
    NoChunks(|Concat(past)| + |c|);
  }

  lemma NoChunks(offset: nat)
    ensures ChunksBytes([], offset) == []
  {
  }

  lemma LastChunkCut(d: Delivery, past: seq<seq<byte>>, c: seq<byte>, e: seq<byte>, p: nat)
    requires ChunksBytes(d.chunks, 0) == ChunksBytes(past, 0) + ChunkBytes(c, |Concat(past)|)
    requires p <= |c| && p <= |e|
    ensures var k := META_SIZE + |ChunksBytes(past, 0)| + CHUNK_SIZE + |c| - p;
            && k < |DeliveryBytes(d)|
            && DeliveryBytes(d)[..k] + e ==
               MetaBytes(d.meta) + (ChunksBytes(past, 0) + (ChunkBytes(c[..|c| - p] + e[..p], |Concat(past)|) + e[p..]))
  {
    hide MetaBytes, ChunksBytes, EndBytes, PutCommon, PutChunk;
    var common := PutCommon(RES_FILE_CHUNK, CHUNK_SIZE) + PutChunk(|c|, |Concat(past)|);
    assert ChunkBytes(c, |Concat(past)|) == common + c;
    Cut(MetaBytes(d.meta), ChunksBytes(past, 0), common, c, EndBytes(d.checksum), e, p);
  }

  lemma Cut(a: seq<byte>, b: seq<byte>, h: seq<byte>, c: seq<byte>, z: seq<byte>, e: seq<byte>, p: nat)
    requires p <= |c| && p <= |e|
    ensures (a + (b + (h + c) + z))[..|a| + |b| + |h| + |c| - p] + e ==
            a + (b + ((h + (c[..|c| - p] + e[..p])) + e[p..]))
  {
  }

  lemma DoneEnds(sum: Sum, rx: Rx, e: seq<byte>, p: nat)
    requires DoneAt(e, p)
    ensures Run(sum, rx, e[p..]) == Outcome(0, rx.disk.files, rx.done)
  {
    assert e[p..][..COMMON_SIZE] == e[p..p + COMMON_SIZE];
    RunStops(sum, rx, e[p..], Outcome(0, rx.disk.files, rx.done));
  }

  /** Without anything of an ERROR the text makes no difference; the empty one is harmless. */
  lemma EmptyIsHarmless()
    ensures NoZero([]) && Harmless([])
  {
    hide ErrorBytes, DoneAt;
    forall p | COMMON_SIZE <= p <= ERROR_SIZE - COMMON_SIZE ensures !DoneAt(ErrorBytes([]), p) {
      EmptyIsZero(p);
      DoneFields(ErrorBytes([]), p);
    }
  }

  lemma EmptyIsZero(p: nat)
    requires COMMON_SIZE <= p < ERROR_SIZE
    ensures ErrorBytes([])[p] == 0
  {
    hide PutCommon;
  }

  // --------------------------------------------------------------------- the message the server sends

  /** What a message array holds of the name in FailedMessage. */
  const NAME_ROOM := ERROR_SIZE - COMMON_SIZE - |FAILED_TO_SEND|

  /** "MINI" stands there, with a carriage return two bytes on, and one more byte. */
  predicate MarkAt(t: Text, i: nat) {
    && i + 6 < |t|
    && t[i] == 0x4D && t[i + 1] == 0x49 && t[i + 2] == 0x4E && t[i + 3] == 0x49 && t[i + 5] == RES_FILE_DONE
  }

  /** The part of the name that fits the message nowhere reads like a DONE header. */
  predicate HarmlessName(name: Text) {
    var t := Truncate(name, NAME_ROOM);
    forall i :: 0 <= i < |t| ==> !MarkAt(t, i)
  }

  lemma MagicIs(a: byte, b: byte, c: byte, d: byte)
    ensures ((a as int * 256 + b as int) * 256 + c as int) * 256 + d as int == MAGIC <==>
            a == 0x4D && b == 0x49 && c == 0x4E && d == 0x49
  {
  }

  lemma DoneFields(s: seq<byte>, p: nat)
    requires p + COMMON_SIZE <= |s|
    ensures DoneAt(s, p) <==>
            && s[p] == 0x4D && s[p + 1] == 0x49 && s[p + 2] == 0x4E && s[p + 3] == 0x49 && s[p + 5] == RES_FILE_DONE
            && (s[p + 6] != 0 || s[p + 7] >= COMMON_SIZE)
  {
    var c := s[p..p + COMMON_SIZE];
    Fields(c);
    MagicIs(c[0], c[1], c[2], c[3]);
    hide GetCommon;
  }

  lemma MessageBytes(name: Text)
    ensures ErrorBytes(FailedMessage(name)) ==
            PutCommon(RES_FILE_ERROR, ERROR_SIZE) + FAILED_TO_SEND + PutText(name, NAME_ROOM)
  {
    hide PutCommon;
  }

  lemma WordsInMessage(name: Text, x: nat)
    requires x < |FAILED_TO_SEND|
    ensures ErrorBytes(FailedMessage(name))[COMMON_SIZE + x] == FAILED_TO_SEND[x]
  {
    MessageBytes(name);
    hide ErrorBytes, FailedMessage, PutCommon, PutText;
  }

  lemma NoMagicInWords(x: nat)
    requires x < |FAILED_TO_SEND|
    ensures FAILED_TO_SEND[x] != 0x4D
  {
  }

  /** Only in the name can "MINI" stand, once the packet has begun. */
  lemma MagicInName(name: Text, p: nat)
    requires p > 0 && MagicAt(ErrorBytes(FailedMessage(name)), p)
    ensures p >= ERROR_SIZE - NAME_ROOM
  {
    var e := ErrorBytes(FailedMessage(name));
    MagicInMessage(FailedMessage(name), p);
    MagicStarts(e[p..p + 4]);
    hide ErrorBytes, FailedMessage, GetU32;
    assert e[p..p + 4][0] == e[p];
    if p < ERROR_SIZE - NAME_ROOM {
      MagicInWords(name, p);
    }
  }

  lemma MagicInWords(name: Text, p: nat)
    requires COMMON_SIZE <= p < COMMON_SIZE + |FAILED_TO_SEND|
    ensures ErrorBytes(FailedMessage(name))[p] != 0x4D
  {
    WordsInMessage(name, p - COMMON_SIZE);
    NoMagicInWords(p - COMMON_SIZE);
  }

  lemma NameInMessage(name: Text, x: nat)
    requires x < NAME_ROOM
    ensures ErrorBytes(FailedMessage(name))[ERROR_SIZE - NAME_ROOM + x] == PutText(name, NAME_ROOM)[x]
  {
    MessageBytes(name);
    hide ErrorBytes, FailedMessage, PutCommon, PutText;
  }

  /** A DONE header in the message is one in the part of the name that it has room for. */
  lemma DoneInName(name: Text, i: nat)
    requires NoZero(name) && i + COMMON_SIZE <= NAME_ROOM
    ensures DoneAt(ErrorBytes(FailedMessage(name)), ERROR_SIZE - NAME_ROOM + i) <==>
            MarkAt(Truncate(name, NAME_ROOM), i)
  {
    var e, t, p := ErrorBytes(FailedMessage(name)), Truncate(name, NAME_ROOM), ERROR_SIZE - NAME_ROOM;
    DoneFields(e, p + i);
    hide ErrorBytes, FailedMessage, DoneAt, NoZero;
    forall y | i <= y < i + COMMON_SIZE
      ensures e[p + y] == (if y < |t| then t[y] else 0) && (e[p + y] == 0 <==> y >= |t|)
    {
      NameInMessage(name, y);
      ZeroBytes(name, NAME_ROOM, y);
    }
    assert e[p + (i + 7)] == e[p + i + 7];
  }

  /** The condition on the name is the one on the message. */
  lemma HarmlessNameExact(name: Text)
    requires NoZero(name)
    ensures Harmless(FailedMessage(name)) <==> HarmlessName(name)
  {
    hide ErrorBytes, DoneAt, FailedMessage, MarkAt, NoZero;
    var e, t, start := ErrorBytes(FailedMessage(name)), Truncate(name, NAME_ROOM), ERROR_SIZE - NAME_ROOM;
    if HarmlessName(name) {
      forall p | COMMON_SIZE <= p <= ERROR_SIZE - COMMON_SIZE ensures !DoneAt(e, p) {
        if DoneAt(e, p) {
          DoneHasMagic(e, p);
          MagicInName(name, p);
          DoneInName(name, p - start);
          MarkIsInside(t, p - start);
        }
      }
    }
    if Harmless(FailedMessage(name)) {
      forall i | 0 <= i < |t| ensures !MarkAt(t, i) {
        if MarkAt(t, i) {
          MarkIsInside(t, i);
          DoneInName(name, i);
        }
      }
    }
  }

  lemma MarkIsInside(t: Text, i: nat)
    requires MarkAt(t, i)
    ensures i + 6 < |t|
  {
  }

  /** Whichever file of this name breaks off, wherever, and whatever the directory: the client reports
      a failure. */
  ghost predicate AlwaysReported(sum: Sum, name: Text) {
    forall disk: Disk, d: Delivery, k: nat, n: nat |
        WellFormed(d) && d.meta.name == name && k < |DeliveryBytes(d)| && n <= ERROR_SIZE ::
      Run(sum, Start(disk), DeliveryBytes(d)[..k] + ErrorBytes(FailedMessage(name))[..n]).code == 1
  }

  /** And it is left without any part of the file. */
  ghost predicate AlwaysWhole(sum: Sum, name: Text) {
    forall disk: Disk, d: Delivery, k: nat, n: nat |
        WellFormed(d) && d.meta.name == name && k < |DeliveryBytes(d)| && n <= ERROR_SIZE ::
      Run(sum, Start(disk), DeliveryBytes(d)[..k] + ErrorBytes(FailedMessage(name))[..n])
      == Aftermath(sum, disk, 0, d, k, n)
  }

  /** The ERROR about a file does what it is for, after every break in it, exactly if the file's name has
      no DONE header in it. */
  lemma ReportedExactly(sum: Sum, name: Text)
    requires NoZero(name) && |name| < MAX_FILENAME && IsSafeFilename(name)
    ensures AlwaysReported(sum, name) <==> HarmlessName(name)
    ensures AlwaysWhole(sum, name) <==> HarmlessName(name)
  {
    hide Run, ErrorBytes, DeliveryBytes, DoneAt, FailedMessage, HarmlessName, Aftermath, WellFormed, Truncate;
    var message := FailedMessage(name);
    HarmlessNameExact(name);
    if Harmless(message) {
      forall disk: Disk, d: Delivery, k: nat, n: nat |
        WellFormed(d) && d.meta.name == name && k < |DeliveryBytes(d)| && n <= ERROR_SIZE
        ensures Run(sum, Start(disk), DeliveryBytes(d)[..k] + ErrorBytes(message)[..n]) ==
                Aftermath(sum, disk, 0, d, k, n)
        ensures Aftermath(sum, disk, 0, d, k, n).code == 1
      {
        BrokenDelivery(sum, Start(disk), d, k, message, n);
      }
    } else {
      var p :| COMMON_SIZE <= p <= ERROR_SIZE - COMMON_SIZE && DoneAt(ErrorBytes(message), p);
      var disk, d := SmallTransfer(name, p);
      var k := MisledBySmall(sum, name, p, disk, d);
      AftermathIsFailure(sum, disk, 0, d, k, ERROR_SIZE);
      assert ErrorBytes(message)[..ERROR_SIZE] == ErrorBytes(message);
    }
  }

  lemma AftermathIsFailure(sum: Sum, disk: Disk, done: nat, d: Delivery, k: nat, n: nat)
    ensures Aftermath(sum, disk, done, d, k, n).code == 1
  {
  }

  /** A file of p zeros, in an empty directory with room for it. */
  lemma SmallTransfer(name: Text, p: nat) returns (disk: Disk, d: Delivery)
    requires NoZero(name) && |name| < MAX_FILENAME && IsSafeFilename(name) && 1 <= p <= ERROR_SIZE
    ensures disk == Disk(map[], {}, p) && d == Delivery(Meta(name, p, 0, 1, 1), [Zeros(p)], 0)
    ensures Accepts(disk, [d]) && Valid(d) && d.chunks == [] + [Zeros(p)] && |Concat(d.chunks)| <= disk.room
  {
    d := Delivery(Meta(name, p, 0, 1, 1), [Zeros(p)], 0);
    disk := Disk(map[], {}, p);
    hide IsSafeFilename;
    assert Concat(d.chunks) == Zeros(p) + Concat([]);
    assert [d][1..] == [] && Volume([d]) == |Concat(d.chunks)|;
    assert Valid(d);
  }

  lemma MisledBySmall(sum: Sum, name: Text, p: nat, disk: Disk, d: Delivery) returns (k: nat)
    requires 1 <= p <= ERROR_SIZE && DoneAt(ErrorBytes(FailedMessage(name)), p)
    requires disk == Disk(map[], {}, p) && d.meta.name == name && d.chunks == [] + [Zeros(p)]
    requires Valid(d) && |Concat(d.chunks)| <= disk.room
    ensures k == META_SIZE + CHUNK_SIZE && k < |DeliveryBytes(d)|
    ensures Run(sum, Start(disk), DeliveryBytes(d)[..k] + ErrorBytes(FailedMessage(name))) ==
            Outcome(0, map[name := File(ErrorBytes(FailedMessage(name))[..p], false)], 0)
  {
    hide Run, ErrorBytes, DeliveryBytes, DoneAt, FailedMessage, Concat, Valid;
    var e := ErrorBytes(FailedMessage(name));
    Misled(sum, Start(disk), d, [], Zeros(p), FailedMessage(name), p);
    NoChunks(0);
    k := META_SIZE + CHUNK_SIZE;
    assert Concat([]) + (Zeros(p)[..0] + e[..p]) == e[..p] by {
      NothingConcat();
    }
  }

  lemma NothingConcat()
    ensures Concat([]) == []
  {
  }

  const MISLEADING_NAME: Text := [0x4D, 0x49, 0x4E, 0x49, VERSION, RES_FILE_DONE, 0x20, 0x20]

  /** For example: of a file of this name and 30 bytes only its chunk's header got through before the
      ERROR. The client reports success, with a file that holds the beginning of the ERROR. */
  lemma MisleadingName(sum: Sum) returns (disk: Disk, d: Delivery)
    ensures Accepts(disk, [d]) && d.meta.name == MISLEADING_NAME && |Concat(d.chunks)| == 30
    ensures var (k, e) := (META_SIZE + CHUNK_SIZE, ErrorBytes(FailedMessage(MISLEADING_NAME)));
            && k < |DeliveryBytes(d)|
            && Run(sum, Start(disk), DeliveryBytes(d)[..k] + e) ==
               Outcome(0, map[MISLEADING_NAME := File(e[..30], false)], 0)
  {
    var name := MISLEADING_NAME;
    hide Run, ErrorBytes, DeliveryBytes, DoneAt, FailedMessage, IsSafeFilename, Accepts, Valid;
    SafeFilenameExact(name);
    DoneInName(name, 0);
    disk, d := SmallTransfer(name, 30);
    assert Concat([Zeros(30)]) == Zeros(30) + Concat([]);
    var k := MisledBySmall(sum, name, 30, disk, d);
  }
}
