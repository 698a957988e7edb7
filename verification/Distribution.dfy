/** The byte stream the server sends for a list of files, and what the receiver makes of all of
    it, of every prefix of it, and of damaged contents. */
module Distribution {
  import opened Bytes
  import opened Wire
  import opened Options
  import opened Receiver

  /** One file as it goes on the wire: its META fields, its contents cut into chunks, and the
      checksum its END carries. */
  datatype Delivery = Delivery(meta: Meta, chunks: seq<seq<byte>>, checksum: bv32)

  function Concat(chunks: seq<seq<byte>>): seq<byte> {
    if chunks == [] then [] else chunks[0] + Concat(chunks[1..])
  }

  function MetaBytes(m: Meta): (s: seq<byte>)
    ensures |s| == META_SIZE
  {
    PutCommon(RES_FILE_META, META_SIZE) + PutMeta(m)
  }

  function ChunkBytes(payload: seq<byte>, offset: nat): (s: seq<byte>)
    ensures |s| == CHUNK_SIZE + |payload|
  {
    PutCommon(RES_FILE_CHUNK, CHUNK_SIZE) + PutChunk(|payload|, offset) + payload
  }

  function ChunksBytes(chunks: seq<seq<byte>>, offset: nat): seq<byte> {
    if chunks == [] then []
    else ChunkBytes(chunks[0], offset) + ChunksBytes(chunks[1..], offset + |chunks[0]|)
  }

  function EndBytes(checksum: bv32): (s: seq<byte>)
    ensures |s| == END_SIZE
  {
    PutCommon(RES_FILE_END, END_SIZE) + PutEnd(checksum, 0)
  }

  function DeliveryBytes(d: Delivery): (s: seq<byte>)
    ensures |s| >= META_SIZE + END_SIZE
  {
    MetaBytes(d.meta) + (ChunksBytes(d.chunks, 0) + EndBytes(d.checksum))
  }

  function DeliveriesBytes(ds: seq<Delivery>): seq<byte> {
    if ds == [] then [] else DeliveryBytes(ds[0]) + DeliveriesBytes(ds[1..])
  }

  /** How a transfer ends: DONE, or ERROR with a message. */
  datatype Tail = AllSent(total: byte) | Failed(message: Text)

  function TailBytes(t: Tail): (s: seq<byte>)
    ensures |s| >= COMMON_SIZE
  {
    match t
    case AllSent(total) => PutCommon(RES_FILE_DONE, END_SIZE) + PutEnd(0, total)
    case Failed(message) => PutCommon(RES_FILE_ERROR, ERROR_SIZE) + PutText(message, ERROR_SIZE - COMMON_SIZE)
  }

  /** The server's message about a file it could not send: some fixed words in UTF-8 and its name. */
  function FailedMessage(name: Text): (message: Text)
    ensures NoZero(name) ==> NoZero(message)
  {
    FAILED_TO_SEND + name
  }

  const FAILED_TO_SEND: Text := [0xED, 0x8C, 0x8C, 0xEC, 0x9D, 0xBC, 0x20, 0xEC, 0xA0, 0x84, 0xEC, 0x86, 0xA1, 0x20,
                                 0xEC, 0x8B, 0xA4, 0xED, 0x8C, 0xA8, 0x3A, 0x20]

  predicate ValidChunks(chunks: seq<seq<byte>>) {
    forall c | c in chunks :: 1 <= |c| <= MAX_CHUNK
  }

  /** What the sender sees to: names and sizes that fit their fields, chunks neither empty nor too
      large. */
  predicate WellFormed(d: Delivery) {
    && NoZero(d.meta.name) && |d.meta.name| < MAX_FILENAME && d.meta.fileSize < 0x1_0000_0000
    && ValidChunks(d.chunks)
  }

  predicate Valid(d: Delivery) {
    WellFormed(d) && IsSafeFilename(d.meta.name)
  }

  /** The receiver opens no file of this name. */
  predicate Refuses(disk: Disk, name: Text) {
    !IsSafeFilename(name) || name in disk.blocked
  }

  function Volume(ds: seq<Delivery>): nat {
    if ds == [] then 0 else |Concat(ds[0].chunks)| + Volume(ds[1..])
  }

  /** The directory takes every file of the list. */
  predicate Accepts(disk: Disk, ds: seq<Delivery>) {
    && (forall d | d in ds :: Valid(d) && d.meta.name !in disk.blocked)
    && Volume(ds) <= disk.room
  }

  lemma Assoc(a: seq<byte>, b: seq<byte>, c: seq<byte>)
    ensures a + b + c == a + (b + c)
  {
  }

  lemma {:induction false} ConcatAppend(a: seq<seq<byte>>, b: seq<seq<byte>>)
    ensures Concat(a + b) == Concat(a) + Concat(b)
  {
    if a == [] {
      assert a + b == b;
    } else {
      assert (a + b)[1..] == a[1..] + b;
      ConcatAppend(a[1..], b);
      Assoc(a[0], Concat(a[1..]), Concat(b));
    }
  }

  /** Chunk headers carry running offsets. */
  lemma {:induction false} ChunksAppend(a: seq<seq<byte>>, b: seq<seq<byte>>, offset: nat)
    ensures ChunksBytes(a + b, offset) == ChunksBytes(a, offset) + ChunksBytes(b, offset + |Concat(a)|)
    decreases |a|
  {
    hide ChunkBytes;
    if a == [] {
      assert a + b == b;
    } else {
      assert (a + b)[1..] == a[1..] + b;
      ChunksAppend(a[1..], b, offset + |a[0]|);
      Assoc(ChunkBytes(a[0], offset), ChunksBytes(a[1..], offset + |a[0]|), ChunksBytes(b, offset + |Concat(a)|));
    }
  }

  lemma ChunksCons(next: seq<byte>, later: seq<seq<byte>>, offset: nat)
    ensures ChunksBytes([next] + later, offset) == ChunkBytes(next, offset) + ChunksBytes(later, offset + |next|)
  {
    assert ([next] + later)[1..] == later;
  }

  // --------------------------------------------------------------- one packet, whole or cut short

  lemma CommonAt(s: seq<byte>, pktType: byte, headerSize: nat, rest: seq<byte>)
    requires s == PutCommon(pktType, headerSize) + rest && headerSize < 0x1_0000
    ensures |s| >= COMMON_SIZE && s[..COMMON_SIZE] == PutCommon(pktType, headerSize) && s[COMMON_SIZE..] == rest
    ensures GetCommon(s[..COMMON_SIZE]) == Common(MAGIC, VERSION, pktType, headerSize)
  {
    CommonRoundTrip(pktType, headerSize);
  }

  lemma MetaTurn(sum: Sum, rx: Rx, m: Meta, rest: seq<byte>)
    requires NoZero(m.name) && |m.name| < MAX_FILENAME && IsSafeFilename(m.name) && m.fileSize < 0x1_0000_0000
    requires m.name !in rx.disk.blocked
    ensures OnPacket(sum, rx, MetaBytes(m) + rest) ==
            Go(Rx(rx.disk.(files := Create(rx.disk.files, m.name)), true, Some(m.name), m.exec != 0, rx.done), rest)
  {
    var s := MetaBytes(m) + rest;
    CommonAt(s, RES_FILE_META, META_SIZE, PutMeta(m) + rest);
    assert s[COMMON_SIZE..META_SIZE] == PutMeta(m);
    MetaRoundTrip(m);
    assert s[META_SIZE..] == rest;
  }

  /** What a CHUNK does to the receiver. */
  function AfterChunk(rx: Rx, payload: seq<byte>): Rx
    requires rx.out.Some? && |payload| <= rx.disk.room
  {
    rx.(disk := rx.disk.(files := Append(rx.disk.files, rx.out.value, payload), room := rx.disk.room - |payload|))
  }

  lemma ChunkDispatch(sum: Sum, rx: Rx, s: seq<byte>, rest: seq<byte>)
    requires s == PutCommon(RES_FILE_CHUNK, CHUNK_SIZE) + rest
    ensures OnPacket(sum, rx, s) == OnChunk(rx, CHUNK_SIZE, s)
  {
    CommonAt(s, RES_FILE_CHUNK, CHUNK_SIZE, rest);
  }

  /** The chunk branch on a header that announces exactly what follows. */
  lemma OnChunkAt(rx: Rx, s: seq<byte>, common: seq<byte>, hdr: seq<byte>, payload: seq<byte>, rest: seq<byte>)
    requires |common| == COMMON_SIZE && |hdr| == CHUNK_SIZE - COMMON_SIZE && s == common + (hdr + payload + rest)
    requires GetChunkSize(hdr) == |payload|
    requires rx.waitChunk && rx.out.Some? && 1 <= |payload| <= MAX_CHUNK && |payload| <= rx.disk.room
    ensures OnChunk(rx, CHUNK_SIZE, s) == Go(AfterChunk(rx, payload), rest)
  {
    assert s[COMMON_SIZE..CHUNK_SIZE] == hdr;
    assert s[CHUNK_SIZE..CHUNK_SIZE + |payload|] == payload;
    assert s[CHUNK_SIZE + |payload|..] == rest;
  }

  lemma ChunkTurn(sum: Sum, rx: Rx, payload: seq<byte>, offset: nat, rest: seq<byte>)
    requires rx.waitChunk && rx.out.Some? && 1 <= |payload| <= MAX_CHUNK && |payload| <= rx.disk.room
    ensures OnPacket(sum, rx, ChunkBytes(payload, offset) + rest) == Go(AfterChunk(rx, payload), rest)
  {
    ChunkShape(payload, offset, rest);
    ChunkTurnOf(sum, rx, ChunkBytes(payload, offset) + rest, PutChunk(|payload|, offset), payload, offset, rest);
  }

  lemma ChunkShape(payload: seq<byte>, offset: nat, rest: seq<byte>)
    ensures ChunkBytes(payload, offset) + rest ==
            PutCommon(RES_FILE_CHUNK, CHUNK_SIZE) + (PutChunk(|payload|, offset) + payload + rest)
  {
  }

  lemma ChunkTurnOf(sum: Sum, rx: Rx, s: seq<byte>, hdr: seq<byte>, payload: seq<byte>, offset: nat, rest: seq<byte>)
    requires rx.waitChunk && rx.out.Some? && 1 <= |payload| <= MAX_CHUNK && |payload| <= rx.disk.room
    requires hdr == PutChunk(|payload|, offset)
    requires s == PutCommon(RES_FILE_CHUNK, CHUNK_SIZE) + (hdr + payload + rest)
    ensures OnPacket(sum, rx, s) == Go(AfterChunk(rx, payload), rest)
  {
    hide OnPacket, PutCommon, PutChunk;
    ChunkDispatch(sum, rx, s, hdr + payload + rest);
    ChunkRoundTrip(|payload|, offset);
    OnChunkAt(rx, s, PutCommon(RES_FILE_CHUNK, CHUNK_SIZE), hdr, payload, rest);
  }

  /** What END does to the receiver. */
  function AfterEnd(sum: Sum, rx: Rx, checksum: bv32): Rx
    requires rx.out.Some?
  {
    var closed := rx.(out := None, waitChunk := false);
    if rx.out.value !in rx.disk.files || checksum != sum(rx.disk.files[rx.out.value].bytes) then
      closed.(disk := rx.disk.(files := Unlink(rx.disk.files, rx.out.value)))
    else closed.(disk := rx.disk.(files := if rx.outExec then MakeExec(rx.disk.files, rx.out.value) else rx.disk.files),
                 done := rx.done + 1)
  }

  lemma EndTurn(sum: Sum, rx: Rx, checksum: bv32, rest: seq<byte>)
    requires rx.out.Some?
    ensures OnPacket(sum, rx, EndBytes(checksum) + rest) == Go(AfterEnd(sum, rx, checksum), rest)
  {
    var common, hdr := PutCommon(RES_FILE_END, END_SIZE), PutEnd(checksum, 0);
    var s := EndBytes(checksum) + rest;
    assert s == common + (hdr + rest);
    CommonAt(s, RES_FILE_END, END_SIZE, hdr + rest);
    EndRoundTrip(checksum, 0);
    OnEndAt(sum, rx, s, common, hdr, rest, checksum);
  }

  lemma OnEndAt(sum: Sum, rx: Rx, s: seq<byte>, common: seq<byte>, hdr: seq<byte>, rest: seq<byte>, checksum: bv32)
    requires |common| == COMMON_SIZE && |hdr| == END_SIZE - COMMON_SIZE && s == common + (hdr + rest)
    requires GetEndChecksum(hdr) == checksum && rx.out.Some?
    ensures OnEnd(sum, rx, END_SIZE, s) == Go(AfterEnd(sum, rx, checksum), rest)
  {
    assert s[COMMON_SIZE..END_SIZE] == hdr;
    assert s[END_SIZE..] == rest;
  }

  /** A packet cut short is a lost connection. */
  lemma CutPacket(sum: Sum, rx: Rx, pktType: byte, headerSize: nat, rest: seq<byte>, n: nat)
    requires pktType != RES_FILE_DONE && headerSize < 0x1_0000 && n <= COMMON_SIZE + |rest|
    requires n < headerSize || pktType == RES_FILE_ERROR
    ensures OnPacket(sum, rx, (PutCommon(pktType, headerSize) + rest)[..n]) == Fail(rx)
  {
    var s := (PutCommon(pktType, headerSize) + rest)[..n];
    if n >= COMMON_SIZE {
      assert s == PutCommon(pktType, headerSize) + rest[..n - COMMON_SIZE];
      CommonAt(s, pktType, headerSize, rest[..n - COMMON_SIZE]);
    }
  }

  lemma OnChunkCut(rx: Rx, s: seq<byte>, common: seq<byte>, hdr: seq<byte>, payload: seq<byte>)
    requires |common| == COMMON_SIZE && |hdr| == CHUNK_SIZE - COMMON_SIZE && s == common + (hdr + payload)
    requires GetChunkSize(hdr) > |payload|
    ensures OnChunk(rx, CHUNK_SIZE, s) == Fail(rx)
  {
    assert s[COMMON_SIZE..CHUNK_SIZE] == hdr;
  }

  lemma CutChunk(sum: Sum, rx: Rx, payload: seq<byte>, offset: nat, n: nat)
    requires |payload| <= MAX_CHUNK && n < CHUNK_SIZE + |payload|
    ensures OnPacket(sum, rx, ChunkBytes(payload, offset)[..n]) == Fail(rx)
  {
    hide OnPacket, PutCommon, PutChunk;
    var common, hdr := PutCommon(RES_FILE_CHUNK, CHUNK_SIZE), PutChunk(|payload|, offset);
    assert ChunkBytes(payload, offset) == common + (hdr + payload);
    if n < CHUNK_SIZE {
      CutPacket(sum, rx, RES_FILE_CHUNK, CHUNK_SIZE, hdr + payload, n);
    } else {
      var s, part := ChunkBytes(payload, offset)[..n], payload[..n - CHUNK_SIZE];
      assert s == common + (hdr + part);
      ChunkDispatch(sum, rx, s, hdr + part);
      ChunkRoundTrip(|payload|, offset);
      OnChunkCut(rx, s, common, hdr, part);
    }
  }

  // ------------------------------------------------------------------ one file, whole or cut short

  /** What a completed delivery leaves under its name: the contents if the checksum fits them,
      nothing otherwise. An earlier file's mode survives under its new contents. */
  function Install(sum: Sum, files: Dir, d: Delivery): Dir {
    if d.checksum == sum(Concat(d.chunks)) then
      files[d.meta.name := File(Concat(d.chunks),
                                d.meta.exec != 0 || (d.meta.name in files && files[d.meta.name].exec))]
    else Unlink(files, d.meta.name)
  }

  function InstallAll(sum: Sum, files: Dir, ds: seq<Delivery>): Dir
    decreases |ds|
  {
    if ds == [] then files else InstallAll(sum, Install(sum, files, ds[0]), ds[1..])
  }

  function Intact(sum: Sum, ds: seq<Delivery>): nat {
    if ds == [] then 0
    else (if ds[0].checksum == sum(Concat(ds[0].chunks)) then 1 else 0) + Intact(sum, ds[1..])
  }

  /** The receiver in the middle of file `name`, with `got` received and `prior` the directory
      before its META. */
  predicate Receiving(rx: Rx, prior: Dir, name: Text, got: seq<byte>, exec: bool) {
    && rx.waitChunk && rx.out == Some(name) && rx.outExec == exec
    && rx.disk.files == prior[name := File(got, name in prior && prior[name].exec)]
  }

  lemma ChunkReceived(rx: Rx, prior: Dir, name: Text, got: seq<byte>, exec: bool, payload: seq<byte>)
    requires Receiving(rx, prior, name, got, exec) && |payload| <= rx.disk.room
    ensures Receiving(AfterChunk(rx, payload), prior, name, got + payload, exec)
    ensures AfterChunk(rx, payload).disk.room == rx.disk.room - |payload|
    ensures AfterChunk(rx, payload).done == rx.done
  {
  }

  /** All chunks of a file, then whatever follows. */
  lemma {:induction false} RunChunks(sum: Sum, rx: Rx, prior: Dir, name: Text, got: seq<byte>, exec: bool,
                                     chunks: seq<seq<byte>>, offset: nat, rest: seq<byte>) returns (rx': Rx)
    requires Receiving(rx, prior, name, got, exec)
    requires ValidChunks(chunks) && |Concat(chunks)| <= rx.disk.room
    ensures Receiving(rx', prior, name, got + Concat(chunks), exec)
    ensures rx'.done == rx.done && rx'.disk.blocked == rx.disk.blocked
    ensures rx'.disk.room == rx.disk.room - |Concat(chunks)|
    ensures Run(sum, rx, ChunksBytes(chunks, offset) + rest) == Run(sum, rx', rest)
    decreases |chunks|
  {
    hide Run, OnPacket, ChunkBytes;
    if chunks == [] {
      rx' := rx;
      assert ChunksBytes(chunks, offset) + rest == rest;
      assert got + Concat(chunks) == got;
    } else {
      var payload, later := chunks[0], chunks[1..];
      assert payload in chunks && |payload| <= |Concat(chunks)|;
      var tail := ChunksBytes(later, offset + |payload|) + rest;
      Assoc(ChunkBytes(payload, offset), ChunksBytes(later, offset + |payload|), rest);
      ChunkTurn(sum, rx, payload, offset, tail);
      RunGo(sum, rx, ChunkBytes(payload, offset) + tail, AfterChunk(rx, payload), tail);
      ChunkReceived(rx, prior, name, got, exec, payload);
      rx' := RunChunks(sum, AfterChunk(rx, payload), prior, name, got + payload, exec, later, offset + |payload|, rest);
      Assoc(got, payload, Concat(later));
    }
  }

  /** A file's END, given what was received. */
  lemma EndInstalls(sum: Sum, rx: Rx, prior: Dir, d: Delivery)
    requires Receiving(rx, prior, d.meta.name, Concat(d.chunks), d.meta.exec != 0)
    ensures AfterEnd(sum, rx, d.checksum).disk.files == Install(sum, prior, d)
    ensures AfterEnd(sum, rx, d.checksum).done == rx.done + Intact(sum, [d])
  {
  }

  /** Between two files. */
  predicate Idle(rx: Rx) {
    !rx.waitChunk && rx.out.None?
  }

  lemma RunDelivery(sum: Sum, rx: Rx, d: Delivery, rest: seq<byte>) returns (rx': Rx)
    requires Idle(rx) && Valid(d) && d.meta.name !in rx.disk.blocked && |Concat(d.chunks)| <= rx.disk.room
    ensures Idle(rx') && rx'.disk.files == Install(sum, rx.disk.files, d) && rx'.done == rx.done + Intact(sum, [d])
    ensures rx'.disk.blocked == rx.disk.blocked && rx'.disk.room == rx.disk.room - |Concat(d.chunks)|
    ensures Run(sum, rx, DeliveryBytes(d) + rest) == Run(sum, rx', rest)
  {
    hide Run, OnPacket;
    var prior, name, exec := rx.disk.files, d.meta.name, d.meta.exec != 0;
    var afterMeta := ChunksBytes(d.chunks, 0) + (EndBytes(d.checksum) + rest);
    Assoc(MetaBytes(d.meta), ChunksBytes(d.chunks, 0) + EndBytes(d.checksum), rest);
    Assoc(ChunksBytes(d.chunks, 0), EndBytes(d.checksum), rest);
    MetaTurn(sum, rx, d.meta, afterMeta);
    var rx1 := Rx(rx.disk.(files := Create(rx.disk.files, name)), true, Some(name), exec, rx.done);
    RunGo(sum, rx, MetaBytes(d.meta) + afterMeta, rx1, afterMeta);
    var rx2 := RunChunks(sum, rx1, prior, name, [], exec, d.chunks, 0, EndBytes(d.checksum) + rest);
    assert [] + Concat(d.chunks) == Concat(d.chunks);
    EndTurn(sum, rx2, d.checksum, rest);
    RunGo(sum, rx2, EndBytes(d.checksum) + rest, AfterEnd(sum, rx2, d.checksum), rest);
    EndInstalls(sum, rx2, prior, d);
    rx' := AfterEnd(sum, rx2, d.checksum);
  }

  lemma AcceptsFirst(disk: Disk, ds: seq<Delivery>)
    requires Accepts(disk, ds) && ds != []
    ensures Valid(ds[0]) && ds[0].meta.name !in disk.blocked && |Concat(ds[0].chunks)| <= disk.room
  {
    assert ds[0] in ds;
  }

  lemma AcceptsRest(disk: Disk, ds: seq<Delivery>, disk': Disk)
    requires Accepts(disk, ds) && ds != []
    requires disk'.blocked == disk.blocked && disk'.room == disk.room - |Concat(ds[0].chunks)|
    ensures Accepts(disk', ds[1..])
  {
  }

  /** All files of a list, then whatever follows. */
  lemma {:induction false} RunDeliveries(sum: Sum, rx: Rx, ds: seq<Delivery>, rest: seq<byte>) returns (rx': Rx)
    requires Idle(rx) && Accepts(rx.disk, ds)
    ensures Idle(rx') && rx'.disk.files == InstallAll(sum, rx.disk.files, ds) && rx'.done == rx.done + Intact(sum, ds)
    ensures rx'.disk.blocked == rx.disk.blocked && rx'.disk.room == rx.disk.room - Volume(ds)
    ensures Run(sum, rx, DeliveriesBytes(ds) + rest) == Run(sum, rx', rest)
    decreases |ds|
  {
    hide Run, OnPacket, DeliveryBytes, Install;
    if ds == [] {
      rx' := rx;
      assert DeliveriesBytes(ds) + rest == rest;
    } else {
      var after := DeliveriesBytes(ds[1..]) + rest;
      Assoc(DeliveryBytes(ds[0]), DeliveriesBytes(ds[1..]), rest);
      AcceptsFirst(rx.disk, ds);
      var rx1 := RunDelivery(sum, rx, ds[0], after);
      AcceptsRest(rx.disk, ds, rx1.disk);
      rx' := RunDeliveries(sum, rx1, ds[1..], rest);
    }
  }

  /** Any prefix of the last packet. */
  lemma TailTurn(sum: Sum, rx: Rx, tail: Tail, n: nat)
    requires Idle(rx) && n <= |TailBytes(tail)|
    ensures OnPacket(sum, rx, TailBytes(tail)[..n]) ==
            Stop(Outcome(if tail.AllSent? && n >= COMMON_SIZE then 0 else 1, rx.disk.files, rx.done))
  {
    match tail
    case AllSent(total) =>
      if n >= COMMON_SIZE {
        var s, rest := TailBytes(tail)[..n], PutEnd(0, total)[..n - COMMON_SIZE];
        assert s == PutCommon(RES_FILE_DONE, END_SIZE) + rest;
        CommonAt(s, RES_FILE_DONE, END_SIZE, rest);
      }
    case Failed(message) =>
      CutPacket(sum, rx, RES_FILE_ERROR, ERROR_SIZE, PutText(message, ERROR_SIZE - COMMON_SIZE), n);
  }

  /** A whole transfer: every file whose checksum fits is installed, the others are removed, and
      the receiver reports success exactly when the sender finished. */
  lemma RunAll(sum: Sum, rx: Rx, ds: seq<Delivery>, tail: Tail)
    requires Idle(rx) && Accepts(rx.disk, ds)
    ensures Run(sum, rx, DeliveriesBytes(ds) + TailBytes(tail)) ==
            Outcome(if tail.AllSent? then 0 else 1, InstallAll(sum, rx.disk.files, ds), rx.done + Intact(sum, ds))
  {
    hide Run, OnPacket, DeliveriesBytes, TailBytes, Accepts, InstallAll, Intact;
    var rx' := RunDeliveries(sum, rx, ds, TailBytes(tail));
    TailTurn(sum, rx', tail, |TailBytes(tail)|);
    assert TailBytes(tail)[..|TailBytes(tail)|] == TailBytes(tail);
    RunStops(sum, rx', TailBytes(tail), Outcome(if tail.AllSent? then 0 else 1, rx'.disk.files, rx'.done));
  }

  // ------------------------------------------------------------ files that the directory does not take

  lemma MetaRefused(sum: Sum, rx: Rx, m: Meta, rest: seq<byte>)
    requires NoZero(m.name) && |m.name| < MAX_FILENAME && m.fileSize < 0x1_0000_0000
    requires Idle(rx) && Refuses(rx.disk, m.name)
    ensures Run(sum, rx, MetaBytes(m) + rest) == Outcome(1, rx.disk.files, rx.done)
  {
    hide IsSafeFilename;
    var s := MetaBytes(m) + rest;
    CommonAt(s, RES_FILE_META, META_SIZE, PutMeta(m) + rest);
    assert s[COMMON_SIZE..META_SIZE] == PutMeta(m);
    MetaRoundTrip(m);
    RunStops(sum, rx, s, Outcome(1, rx.disk.files, rx.done));
  }

  lemma ChunkTooLarge(sum: Sum, rx: Rx, payload: seq<byte>, offset: nat, rest: seq<byte>)
    requires rx.disk.room < |payload| <= MAX_CHUNK
    ensures OnPacket(sum, rx, ChunkBytes(payload, offset) + rest) == Fail(rx)
  {
    hide OnPacket, PutCommon, PutChunk;
    var hdr, s := PutChunk(|payload|, offset), ChunkBytes(payload, offset) + rest;
    ChunkShape(payload, offset, rest);
    ChunkDispatch(sum, rx, s, hdr + payload + rest);
    ChunkRoundTrip(|payload|, offset);
    assert s[COMMON_SIZE..CHUNK_SIZE] == hdr;
  }

  /** The chunks of a file there is no room for: the file goes, whatever follows. */
  lemma {:induction false} NoRoom(sum: Sum, rx: Rx, prior: Dir, name: Text, got: seq<byte>, exec: bool,
                                  chunks: seq<seq<byte>>, offset: nat, rest: seq<byte>)
    requires Receiving(rx, prior, name, got, exec)
    requires ValidChunks(chunks) && |Concat(chunks)| > rx.disk.room
    ensures Run(sum, rx, ChunksBytes(chunks, offset) + rest) == Outcome(1, Unlink(prior, name), rx.done)
    decreases |chunks|
  {
    hide Run, OnPacket, ChunkBytes, AfterChunk;
    var payload, later := chunks[0], chunks[1..];
    assert payload in chunks;
    var first, tail := ChunkBytes(payload, offset), ChunksBytes(later, offset + |payload|) + rest;
    Assoc(first, ChunksBytes(later, offset + |payload|), rest);
    if |payload| > rx.disk.room {
      ChunkTooLarge(sum, rx, payload, offset, tail);
      RunStops(sum, rx, first + tail, Fail(rx).outcome);
      FailReceiving(rx, prior, name, got, exec);
    } else {
      ChunkTurn(sum, rx, payload, offset, tail);
      RunGo(sum, rx, first + tail, AfterChunk(rx, payload), tail);
      ChunkReceived(rx, prior, name, got, exec, payload);
      NoRoom(sum, AfterChunk(rx, payload), prior, name, got + payload, exec, later, offset + |payload|, rest);
    }
  }

  /** A file whose name the receiver refuses, or that there is no room for, ends the transfer in failure,
      whatever follows it; the one leaves the directory as it is, the other without a file of that name. */
  lemma RefusedDelivery(sum: Sum, rx: Rx, d: Delivery, rest: seq<byte>)
    requires Idle(rx) && WellFormed(d)
    requires Refuses(rx.disk, d.meta.name) || |Concat(d.chunks)| > rx.disk.room
    ensures Run(sum, rx, DeliveryBytes(d) + rest) ==
            Outcome(1, if Refuses(rx.disk, d.meta.name) then rx.disk.files else Unlink(rx.disk.files, d.meta.name),
                    rx.done)
  {
    hide Run, OnPacket, MetaBytes, ChunksBytes, EndBytes, IsSafeFilename, Concat;
    var name, exec := d.meta.name, d.meta.exec != 0;
    var chunks, end := ChunksBytes(d.chunks, 0), EndBytes(d.checksum);
    var after := chunks + (end + rest);
    Assoc(MetaBytes(d.meta), chunks + end, rest);
    Assoc(chunks, end, rest);
    if Refuses(rx.disk, name) {
      MetaRefused(sum, rx, d.meta, after);
    } else {
      MetaTurn(sum, rx, d.meta, after);
      var rx1 := Rx(rx.disk.(files := Create(rx.disk.files, name)), true, Some(name), exec, rx.done);
      RunGo(sum, rx, MetaBytes(d.meta) + after, rx1, after);
      NoRoom(sum, rx1, rx.disk.files, name, [], exec, d.chunks, 0, end + rest);
    }
  }

  // ------------------------------------------------------------------------- transfers cut short

  lemma TakeConcat(a: seq<byte>, b: seq<byte>, n: nat)
    requires n <= |a| + |b|
    ensures n <= |a| ==> (a + b)[..n] == a[..n]
    ensures n >= |a| ==> (a + b)[..n] == a + b[..n - |a|]
  {
  }

  lemma FailReceiving(rx: Rx, prior: Dir, name: Text, got: seq<byte>, exec: bool)
    requires Receiving(rx, prior, name, got, exec)
    ensures Fail(rx) == Stop(Outcome(1, Unlink(prior, name), rx.done))
  {
    assert Unlink(rx.disk.files, name) == Unlink(prior, name);
  }

  /** The connection ends among the chunks of a file: the file goes. */
  lemma {:induction false} CutChunks(sum: Sum, rx: Rx, prior: Dir, name: Text, got: seq<byte>, exec: bool,
                                     chunks: seq<seq<byte>>, offset: nat, n: nat)
    requires Receiving(rx, prior, name, got, exec)
    requires ValidChunks(chunks) && |Concat(chunks)| <= rx.disk.room && n < |ChunksBytes(chunks, offset)|
    ensures Run(sum, rx, ChunksBytes(chunks, offset)[..n]) == Outcome(1, Unlink(prior, name), rx.done)
    decreases |chunks|
  {
    hide Run, OnPacket, ChunkBytes, AfterChunk;
    var payload, later := chunks[0], chunks[1..];
    var first, rest := ChunkBytes(payload, offset), ChunksBytes(later, offset + |payload|);
    assert payload in chunks;
    TakeConcat(first, rest, n);
    if n < |first| {
      CutChunk(sum, rx, payload, offset, n);
      RunStops(sum, rx, first[..n], Fail(rx).outcome);
      FailReceiving(rx, prior, name, got, exec);
    } else {
      ChunkTurn(sum, rx, payload, offset, rest[..n - |first|]);
      RunGo(sum, rx, first + rest[..n - |first|], AfterChunk(rx, payload), rest[..n - |first|]);
      ChunkReceived(rx, prior, name, got, exec, payload);
      CutChunks(sum, AfterChunk(rx, payload), prior, name, got + payload, exec, later, offset + |payload|, n - |first|);
    }
  }

  /** The connection ends inside a file: nothing of it stays once its META was complete. */
  lemma CutDelivery(sum: Sum, rx: Rx, d: Delivery, n: nat)
    requires Idle(rx) && Valid(d) && d.meta.name !in rx.disk.blocked && |Concat(d.chunks)| <= rx.disk.room
    requires n < |DeliveryBytes(d)|
    ensures Run(sum, rx, DeliveryBytes(d)[..n]) ==
            Outcome(1, if n >= META_SIZE then Unlink(rx.disk.files, d.meta.name) else rx.disk.files, rx.done)
  {
    hide Run, OnPacket;
    var prior, name, exec := rx.disk.files, d.meta.name, d.meta.exec != 0;
    var first, chunks, end := MetaBytes(d.meta), ChunksBytes(d.chunks, 0), EndBytes(d.checksum);
    TakeConcat(first, chunks + end, n);
    if n < META_SIZE {
      CutPacket(sum, rx, RES_FILE_META, META_SIZE, PutMeta(d.meta), n);
      RunStops(sum, rx, first[..n], Fail(rx).outcome);
    } else {
      var m := n - META_SIZE;
      var after := (chunks + end)[..m];
      MetaTurn(sum, rx, d.meta, after);
      var rx1 := Rx(rx.disk.(files := Create(rx.disk.files, name)), true, Some(name), exec, rx.done);
      RunGo(sum, rx, first + after, rx1, after);
      TakeConcat(chunks, end, m);
      if m < |chunks| {
        CutChunks(sum, rx1, prior, name, [], exec, d.chunks, 0, m);
      } else {
        var k := m - |chunks|;
        var rx2 := RunChunks(sum, rx1, prior, name, [], exec, d.chunks, 0, end[..k]);
        CutPacket(sum, rx2, RES_FILE_END, END_SIZE, PutEnd(d.checksum, 0), k);
        RunStops(sum, rx2, end[..k], Fail(rx2).outcome);
        FailReceiving(rx2, prior, name, [] + Concat(d.chunks), exec);
      }
    }
  }

  /** How many files of a transfer have arrived with their END once n bytes have. */
  function Complete(ds: seq<Delivery>, n: nat): (k: nat)
    ensures k <= |ds| && |DeliveriesBytes(ds[..k])| <= n
    ensures k < |ds| ==> n < |DeliveriesBytes(ds[..k + 1])|
  {
    if ds == [] then 0
    else if n < |DeliveryBytes(ds[0])| then
      assert ds[..1] == [ds[0]];
      0
    else
      var k := Complete(ds[1..], n - |DeliveryBytes(ds[0])|);
      assert ds[..k + 1][1..] == ds[1..][..k];
      assert k < |ds[1..]| ==> ds[..k + 2][1..] == ds[1..][..k + 1];
      k + 1
  }

  /** What the directory holds when the connection ends after n bytes of a transfer: the files
      whose END had arrived, and not the one whose META had. */
  function Survivors(sum: Sum, files: Dir, ds: seq<Delivery>, n: nat): Dir {
    var k := Complete(ds, n);
    var installed := InstallAll(sum, files, ds[..k]);
    if k < |ds| && n >= |DeliveriesBytes(ds[..k])| + META_SIZE then Unlink(installed, ds[k].meta.name) else installed
  }

  /** How a transfer cut after n bytes ends: success exactly when the first 8 bytes of DONE made it. */
  function CutOutcome(sum: Sum, files: Dir, done: nat, ds: seq<Delivery>, tail: Tail, n: nat): Outcome {
    Outcome(if tail.AllSent? && n >= |DeliveriesBytes(ds)| + COMMON_SIZE then 0 else 1,
            Survivors(sum, files, ds, n),
            done + Intact(sum, ds[..Complete(ds, n)]))
  }

  lemma CutInFirst(sum: Sum, files: Dir, done: nat, ds: seq<Delivery>, tail: Tail, n: nat)
    requires ds != [] && n < |DeliveryBytes(ds[0])|
    ensures CutOutcome(sum, files, done, ds, tail, n) ==
            Outcome(1, if n >= META_SIZE then Unlink(files, ds[0].meta.name) else files, done)
  {
    hide DeliveryBytes;
    assert Complete(ds, n) == 0 && ds[..0] == [];
  }

  lemma CutAfterFirst(sum: Sum, files: Dir, done: nat, ds: seq<Delivery>, tail: Tail, n: nat)
    requires ds != [] && n >= |DeliveryBytes(ds[0])|
    ensures CutOutcome(sum, files, done, ds, tail, n) ==
            CutOutcome(sum, Install(sum, files, ds[0]), done + Intact(sum, [ds[0]]), ds[1..], tail,
                       n - |DeliveryBytes(ds[0])|)
  {
    hide DeliveryBytes, Install;
    var k := Complete(ds[1..], n - |DeliveryBytes(ds[0])|);
    assert Complete(ds, n) == k + 1;
    assert ds[..k + 1][1..] == ds[1..][..k];
  }

  /** Every prefix of a transfer: the completed files stay, the one in progress goes. */
  lemma {:induction false} RunPrefix(sum: Sum, rx: Rx, ds: seq<Delivery>, tail: Tail, n: nat)
    requires Idle(rx) && Accepts(rx.disk, ds) && n <= |DeliveriesBytes(ds) + TailBytes(tail)|
    ensures Run(sum, rx, (DeliveriesBytes(ds) + TailBytes(tail))[..n]) ==
            CutOutcome(sum, rx.disk.files, rx.done, ds, tail, n)
    decreases |ds|
  {
    hide *;
    if ds == [] {
      RunPrefixOfTail(sum, rx, ds, tail, n);
    } else {
      var first, m := DeliveryBytes(ds[0]), n - |DeliveryBytes(ds[0])|;
      TransferPrefix(ds, tail, n);
      AcceptsFirst(rx.disk, ds);
      if m < 0 {
        CutDelivery(sum, rx, ds[0], n);
        CutInFirst(sum, rx.disk.files, rx.done, ds, tail, n);
      } else {
        var rest := (DeliveriesBytes(ds[1..]) + TailBytes(tail))[..m];
        var rx' := RunDelivery(sum, rx, ds[0], rest);
        AcceptsRest(rx.disk, ds, rx'.disk);
        RunPrefix(sum, rx', ds[1..], tail, m);
        CutAfterFirst(sum, rx.disk.files, rx.done, ds, tail, n);
      }
    }
  }

  lemma RunPrefixOfTail(sum: Sum, rx: Rx, ds: seq<Delivery>, tail: Tail, n: nat)
    requires ds == [] && Idle(rx) && n <= |DeliveriesBytes(ds) + TailBytes(tail)|
    ensures Run(sum, rx, (DeliveriesBytes(ds) + TailBytes(tail))[..n]) ==
            CutOutcome(sum, rx.disk.files, rx.done, ds, tail, n)
  {
    hide OnPacket, TailBytes;
    assert DeliveriesBytes(ds) + TailBytes(tail) == TailBytes(tail);
    TailTurn(sum, rx, tail, n);
  }

  lemma TransferPrefix(ds: seq<Delivery>, tail: Tail, n: nat)
    requires ds != [] && n <= |DeliveriesBytes(ds) + TailBytes(tail)|
    ensures var first, rest := DeliveryBytes(ds[0]), DeliveriesBytes(ds[1..]) + TailBytes(tail);
            && (n <= |first| ==> (DeliveriesBytes(ds) + TailBytes(tail))[..n] == first[..n])
            && (n >= |first| ==> n - |first| <= |rest| &&
                                 (DeliveriesBytes(ds) + TailBytes(tail))[..n] == first + rest[..n - |first|])
  {
    hide DeliveryBytes, TailBytes;
    var first, rest := DeliveryBytes(ds[0]), DeliveriesBytes(ds[1..]) + TailBytes(tail);
    Assoc(first, DeliveriesBytes(ds[1..]), TailBytes(tail));
    TakeConcat(first, rest, n);
  }
}
