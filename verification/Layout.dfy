/** Byte for byte, what the packets of include/protocol.h look like, and which packets the receiver takes. */
module Layout {
  import opened Bytes
  import opened Wire
  import opened Options
  import opened Receiver
  import opened Distribution
  import opened PullServer
  import Submission
  import Crc32

  /** A number of four bytes at this place, most significant first. */
  predicate NumberAt(s: seq<byte>, at: nat, n: int) {
    at + 4 <= |s| && n == Number(s, at)
  }

  function Number(s: seq<byte>, at: nat): (n: int)
    requires at + 4 <= |s|
    ensures 0 <= n < 0x1_0000_0000
  {
    ((s[at] as int * 256 + s[at + 1] as int) * 256 + s[at + 2] as int) * 256 + s[at + 3] as int
  }

  /** An array of `width` bytes at this place with as much of the text as leaves room for a zero. */
  predicate TextAt(s: seq<byte>, at: nat, width: nat, text: Text) {
    && at + width <= |s|
    && forall i :: 0 <= i < width ==> s[at + i] == if i < |text| && i < width - 1 then text[i] else 0
  }

  /** The common header: "MINI", version 3, type and size. */
  predicate StartsAs(s: seq<byte>, pktType: int, headerSize: int) {
    && |s| >= 8
    && s[0] == 0x4D && s[1] == 0x49 && s[2] == 0x4E && s[3] == 0x49 && s[4] == 3
    && s[5] == pktType && s[6] as int * 256 + s[7] as int == headerSize
  }

  // ------------------------------------------------------------------------------------ pieces

  lemma CommonStarts(pktType: byte, headerSize: nat, rest: seq<byte>)
    requires headerSize < 0x1_0000
    ensures StartsAs(PutCommon(pktType, headerSize) + rest, pktType, headerSize)
  {
    var s := PutCommon(pktType, headerSize);
    assert s == [0x4D, 0x49, 0x4E, 0x49, 3, pktType, headerSize / 256, headerSize % 256];
    hide PutCommon;
    forall i | 0 <= i < 8 ensures (s + rest)[i] == s[i] {
    }
  }

  lemma FourBytes(s: seq<byte>)
    requires |s| == 4
    ensures GetU32(s) == ((s[0] as int * 256 + s[1] as int) * 256 + s[2] as int) * 256 + s[3] as int
  {
    assert s[..2] == [s[0], s[1]] && s[2..] == [s[2], s[3]];
  }

  lemma NumberIn(a: seq<byte>, n: nat, rest: seq<byte>)
    ensures NumberAt(a + PutU32(n) + rest, |a|, n % 0x1_0000_0000)
  {
    var s, p := a + PutU32(n) + rest, PutU32(n);
    U32RoundTrip(n);
    FourBytes(p);
    hide PutU32, GetU32;
    assert s[|a|] == p[0] && s[|a| + 1] == p[1] && s[|a| + 2] == p[2] && s[|a| + 3] == p[3];
  }

  lemma WordIn(a: seq<byte>, w: bv32, rest: seq<byte>)
    ensures NumberAt(a + PutWord(w) + rest, |a|, w as int)
  {
    NumberIn(a, w as int, rest);
    WordIsInt(w);
    SmallModulo(w as int);
    hide PutU32;
  }

  lemma SmallModulo(n: int)
    ensures 0 <= n < 0x1_0000_0000 ==> n % 0x1_0000_0000 == n
  {
  }

  lemma TextIn(a: seq<byte>, text: Text, width: nat, rest: seq<byte>)
    requires width > 0
    ensures TextAt(a + PutText(text, width) + rest, |a|, width, text)
  {
    var s, f := a + PutText(text, width) + rest, PutText(text, width);
    forall i | 0 <= i < width ensures s[|a| + i] == if i < |text| && i < width - 1 then text[i] else 0 {
      assert s[|a| + i] == f[i];
    }
  }

  lemma Grouped(a: seq<byte>, b: seq<byte>, c: seq<byte>, d: seq<byte>)
    ensures a + (b + c + d) == a + b + (c + d) == a + b + c + d
  {
  }

  lemma LastBytes(a: seq<byte>, d: seq<byte>)
    ensures forall i :: |a| <= i < |a| + |d| ==> (a + d)[i] == d[i - |a|]
  {
  }

  // ---------------------------------------------------------------------------------- the packets

  lemma MetaLayout(m: Meta)
    requires m.fileSize < 0x1_0000_0000
    ensures var s := MetaBytes(m);
            && |s| == 144 && StartsAs(s, 10, 144)
            && TextAt(s, 8, 128, m.name) && NumberAt(s, 136, m.fileSize)
            && s[140] == m.exec && s[141] == m.index && s[142] == m.total && s[143] == 0
  {
    var a, b, c, d := PutCommon(RES_FILE_META, META_SIZE), PutText(m.name, MAX_FILENAME), PutU32(m.fileSize),
      [m.exec, m.index, m.total, 0];
    CommonStarts(RES_FILE_META, META_SIZE, b + c + d);
    TextIn(a, m.name, MAX_FILENAME, c + d);
    NumberIn(a + b, m.fileSize, d);
    SmallModulo(m.fileSize);
    hide PutCommon, PutText, PutU32, TextAt, NumberAt, StartsAs;
    Grouped(a, b, c, d);
    LastBytes(a + b + c, d);
    assert MetaBytes(m) == a + (b + c + d);
  }

  lemma ChunkLayout(payload: seq<byte>, offset: nat)
    requires |payload| < 0x1_0000_0000
    ensures var s := ChunkBytes(payload, offset);
            && |s| == 16 + |payload| && StartsAs(s, 11, 16)
            && NumberAt(s, 8, |payload|) && NumberAt(s, 12, offset % 0x1_0000_0000) && s[16..] == payload
  {
    var a, b, c := PutCommon(RES_FILE_CHUNK, CHUNK_SIZE), PutU32(|payload|), PutU32(offset);
    CommonStarts(RES_FILE_CHUNK, CHUNK_SIZE, b + c + payload);
    NumberIn(a, |payload|, c + payload);
    NumberIn(a + b, offset, payload);
    SmallModulo(|payload|);
    hide PutCommon, PutU32, NumberAt, StartsAs;
    Grouped(a, b, c, payload);
    assert ChunkBytes(payload, offset) == a + (b + c) + payload;
    assert a + (b + c) + payload == a + (b + c + payload);
  }

  lemma EndShape(pktType: byte, checksum: bv32, total: byte)
    ensures var s := PutCommon(pktType, END_SIZE) + PutEnd(checksum, total);
            && |s| == 16 && StartsAs(s, pktType, 16) && NumberAt(s, 8, checksum as int)
            && s[12] == total && s[13] == s[14] == s[15] == 0
  {
    var a, b, c := PutCommon(pktType, END_SIZE), PutWord(checksum), [total, 0, 0, 0];
    CommonStarts(pktType, END_SIZE, b + c);
    WordIn(a, checksum, c);
    hide PutCommon, PutWord, NumberAt, StartsAs;
    assert a + PutEnd(checksum, total) == a + (b + c) == a + b + c;
  }

  lemma EndLayout(checksum: bv32)
    ensures var s := EndBytes(checksum);
            && |s| == 16 && StartsAs(s, 12, 16) && NumberAt(s, 8, checksum as int)
            && s[12] == s[13] == s[14] == s[15] == 0
  {
    EndShape(RES_FILE_END, checksum, 0);
    hide PutCommon, PutEnd, NumberAt, StartsAs;
  }

  lemma DoneLayout(total: byte)
    ensures var s := TailBytes(AllSent(total));
            && |s| == 16 && StartsAs(s, 13, 16) && NumberAt(s, 8, 0)
            && s[12] == total && s[13] == s[14] == s[15] == 0
  {
    EndShape(RES_FILE_DONE, 0, total);
    hide PutCommon, PutEnd, NumberAt, StartsAs;
  }

  lemma ErrorLayout(message: Text)
    ensures var s := TailBytes(Failed(message));
            |s| == 136 && StartsAs(s, 14, 136) && TextAt(s, 8, 128, message)
  {
    var a, b := PutCommon(RES_FILE_ERROR, ERROR_SIZE), PutText(message, ERROR_SIZE - COMMON_SIZE);
    CommonStarts(RES_FILE_ERROR, ERROR_SIZE, b);
    TextIn(a, message, ERROR_SIZE - COMMON_SIZE, []);
    hide PutCommon, PutText, TextAt, StartsAs;
    assert a + b + [] == a + b;
  }

  /** A name cut to 127 bytes fills its array like the whole one. */
  lemma TextStays(m: seq<byte>, rest: seq<byte>, cut: Text, name: Text)
    requires TextAt(m, 8, 128, cut) && cut == Truncate(name, 128)
    ensures TextAt(m + rest, 8, 128, name)
  {
    forall i | 0 <= i < 128 ensures (m + rest)[8 + i] == if i < |name| && i < 127 then name[i] else 0 {
      assert m[8 + i] == if i < |cut| && i < 127 then cut[i] else 0;
    }
  }

  /** The files of a listing go out under their names, cut to 127 bytes, with the size found at fstat, the
      owner's execute permission, their numbers from 1 on, and how many there are. */
  lemma ListingOnTheWire(ds: seq<Delivery>, files: seq<Entry>, i: nat)
    requires IsTransferOf(ds, files) && i < |ds| && files[i].size <= 104857600
    ensures var s := DeliveryBytes(ds[i]);
            && TextAt(s, 8, 128, files[i].name) && NumberAt(s, 136, files[i].size)
            && s[140] == (if files[i].ownerExec then 1 else 0) && s[141] == i + 1 && s[142] == |files|
  {
    var d, e := ds[i], files[i];
    assert IsDeliveryOf(d, e, i + 1, |files|);
    MetaLayout(d.meta);
    var m, rest := MetaBytes(d.meta), ChunksBytes(d.chunks, 0) + EndBytes(d.checksum);
    hide MetaBytes, EndBytes, IsCut, Crc32.Checksum, IsDeliveryOf;
    hide ChunksBytes;
    assert DeliveryBytes(d) == m + rest;
    TextStays(m, rest, d.meta.name, e.name);
  }

  lemma SubmitLayout(id: Text, path: Text, source: seq<byte>)
    requires |source| < 0x1_0000_0000
    ensures var s := Submission.SubmitBytes(id, path, source);
            && |s| == 160 + |source| && StartsAs(s, 1, 160)
            && TextAt(s, 8, 16, id) && TextAt(s, 24, 128, Submission.BaseName(path))
            && NumberAt(s, 152, |source|) && NumberAt(s, 156, Crc32.Checksum(source) as int) && s[160..] == source
  {
    var name, sum := Submission.BaseName(path), Crc32.Checksum(source);
    var a, b, c, d, e := PutCommon(PKT_SUBMIT, SUBMIT_SIZE), PutText(id, MAX_STUDENT_ID), PutText(name, MAX_FILENAME),
      PutU32(|source|), PutWord(sum);
    CommonStarts(PKT_SUBMIT, SUBMIT_SIZE, b + c + d + e + source);
    TextIn(a, id, MAX_STUDENT_ID, c + d + e + source);
    TextIn(a + b, name, MAX_FILENAME, d + e + source);
    NumberIn(a + b + c, |source|, e + source);
    SmallModulo(|source|);
    WordIn(a + b + c + d, sum, source);
    hide PutCommon, PutText, PutU32, PutWord, NumberAt, TextAt, StartsAs, Submission.BaseName, Crc32.Checksum;
    var s := Submission.SubmitBytes(id, path, source);
    SubmitGroups(a, b, c, d, e, source);
    assert s == a + b + c + d + e + source;
  }

  lemma SubmitGroups(a: seq<byte>, b: seq<byte>, c: seq<byte>, d: seq<byte>, e: seq<byte>, f: seq<byte>)
    ensures a + (b + c + d + e + f) == a + b + (c + d + e + f) == a + b + c + (d + e + f) == a + b + c + d + (e + f)
         == a + b + c + d + e + f
  {
  }

  lemma GetFilesLayout(id: Text)
    ensures var s := Submission.PutGetFiles(id); |s| == 24 && StartsAs(s, 3, 24) && TextAt(s, 8, 16, id)
  {
    var a, b := PutCommon(PKT_GET_FILES, GET_FILES_SIZE), PutText(id, MAX_STUDENT_ID);
    CommonStarts(PKT_GET_FILES, GET_FILES_SIZE, b);
    TextIn(a, id, MAX_STUDENT_ID, []);
    hide PutCommon, PutText, TextAt, StartsAs;
    assert a + b + [] == a + b;
  }

  // ---------------------------------------------------------------------- what the receiver takes

  /** A header of this type and size, of any version. */
  predicate Begins(s: seq<byte>, pktType: int, headerSize: int) {
    && |s| >= 8 && s[0] == 0x4D && s[1] == 0x49 && s[2] == 0x4E && s[3] == 0x49
    && s[5] == pktType && s[6] as int * 256 + s[7] as int == headerSize
  }

  predicate IsMeta(s: seq<byte>, disk: Disk) {
    && Begins(s, 10, 144) && |s| >= 144
    && IsSafeFilename(GetText(s[8..135])) && GetText(s[8..135]) !in disk.blocked
  }

  predicate IsChunk(s: seq<byte>, rx: Rx) {
    && Begins(s, 11, 16) && |s| >= 16 && rx.waitChunk && rx.out.Some?
    && 1 <= Number(s, 8) <= 131072 && 16 + Number(s, 8) <= |s| && Number(s, 8) <= rx.disk.room
  }

  predicate IsEnd(s: seq<byte>, rx: Rx) {
    Begins(s, 12, 16) && |s| >= 16 && rx.out.Some?
  }

  predicate IsDone(s: seq<byte>) {
    |s| >= 8 && Begins(s, 13, s[6] as int * 256 + s[7] as int) && (s[6] != 0 || s[7] >= 8)
  }

  lemma MagicExact(s: seq<byte>)
    requires |s| == 4
    ensures GetU32(s) == MAGIC <==> s[0] == 0x4D && s[1] == 0x49 && s[2] == 0x4E && s[3] == 0x49
  {
    FourBytes(s);
  }

  lemma HeaderExact(s: seq<byte>, pktType: byte, headerSize: nat)
    requires |s| >= 8
    ensures var c := GetCommon(s[..8]);
            Begins(s, pktType, headerSize) <==> c.magic == MAGIC && c.pktType == pktType && c.headerSize == headerSize
  {
    var c := s[..8];
    MagicExact(c[..4]);
    hide GetU32;
  }

  lemma MetaExact(rx: Rx, s: seq<byte>)
    requires |s| >= 144
    ensures GetMeta(s[8..144]).name == GetText(s[8..135]) && GetMeta(s[8..144]).exec == s[140]
  {
    assert s[8..144][..127] == s[8..135];
    hide GetText, GetU32;
  }

  lemma NumberExact(s: seq<byte>)
    requires |s| >= 16
    ensures GetChunkSize(s[8..16]) == Number(s, 8)
  {
    FourBytes(s[8..16][..4]);
    hide GetU32;
  }

  /** Which bytes take the receiver to the next packet: a whole META of a name it accepts; a whole CHUNK of 1
      to 131072 bytes while a file is open, if there is room for it; a whole END while a file is open. What
      ends it in success: 8 bytes of a DONE. Everything else ends it in failure. */
  lemma TakenExactly(sum: Sum, rx: Rx, s: seq<byte>)
    ensures var t := OnPacket(sum, rx, s);
            && (t.Go? <==> IsMeta(s, rx.disk) || IsChunk(s, rx) || IsEnd(s, rx))
            && (t.Stop? ==> t.outcome.code == (if IsDone(s) then 0 else 1) && t.outcome.done == rx.done)
  {
    hide GetMeta, GetText, GetChunkSize, GetEndChecksum, IsSafeFilename, GetCommon, GetU32;
    if |s| >= 8 {
      var c := GetCommon(s[..8]);
      HeaderExact(s, 10, 144);
      HeaderExact(s, 11, 16);
      HeaderExact(s, 12, 16);
      HeaderExact(s, 13, s[6] as int * 256 + s[7] as int);
      HeaderSizeExact(s);
      if |s| >= 144 {
        MetaExact(rx, s);
      }
      if |s| >= 16 {
        NumberExact(s);
      }
      hide Begins;
    }
  }

  lemma HeaderSizeExact(s: seq<byte>)
    requires |s| >= 8
    ensures GetCommon(s[..8]).headerSize == s[6] as int * 256 + s[7] as int
  {
    hide GetU32;
  }

  lemma ChecksumExact(s: seq<byte>, w: bv32)
    requires |s| >= 16
    ensures GetEndChecksum(s[8..16]) == w <==> Number(s, 8) as bv32 == w
  {
    FourBytes(s[8..16][..4]);
    hide GetU32;
  }

  /** The branch is the one of the type in the header. */
  lemma BranchTaken(sum: Sum, rx: Rx, s: seq<byte>)
    requires OnPacket(sum, rx, s).Go?
    ensures |s| >= 8
    ensures s[5] == 10 ==> IsMeta(s, rx.disk) && OnPacket(sum, rx, s) == OnMeta(rx, META_SIZE, s)
    ensures s[5] == 11 ==> IsChunk(s, rx) && OnPacket(sum, rx, s) == OnChunk(rx, CHUNK_SIZE, s)
    ensures s[5] == 12 ==> IsEnd(s, rx) && OnPacket(sum, rx, s) == OnEnd(sum, rx, END_SIZE, s)
  {
    TakenExactly(sum, rx, s);
    HeaderExact(s, 10, 144);
    HeaderExact(s, 11, 16);
    HeaderExact(s, 12, 16);
    hide GetCommon, OnMeta, OnChunk, OnEnd, IsSafeFilename, GetText, Number;
  }

  /** What they do: META creates or empties the file of its name, ... */
  lemma MetaTakenAs(sum: Sum, rx: Rx, s: seq<byte>)
    requires IsMeta(s, rx.disk)
    ensures OnPacket(sum, rx, s).Go?
    ensures var (t, files, name) := (OnPacket(sum, rx, s), rx.disk.files, GetText(s[8..135]));
            && t.rest == s[144..] && t.rx.out == Some(name) && t.rx.outExec == (s[140] != 0) && t.rx.waitChunk
            && t.rx.disk == rx.disk.(files := files[name := File([], name in files && files[name].exec)])
            && t.rx.done == rx.done
  {
    TakenExactly(sum, rx, s);
    BranchTaken(sum, rx, s);
    MetaExact(rx, s);
    hide OnPacket, IsSafeFilename, GetText, GetMeta, IsMeta;
  }

  /** ... CHUNK adds its bytes to the open file, ... */
  lemma ChunkTakenAs(sum: Sum, rx: Rx, s: seq<byte>)
    requires IsChunk(s, rx) && rx.out.value in rx.disk.files
    ensures OnPacket(sum, rx, s).Go?
    ensures var (t, files, name, n) := (OnPacket(sum, rx, s), rx.disk.files, rx.out.value, Number(s, 8));
            && t.rest == s[16 + n..]
            && t.rx.disk.files == files[name := File(files[name].bytes + s[16..16 + n], files[name].exec)]
            && t.rx == rx.(disk := rx.disk.(files := t.rx.disk.files, room := rx.disk.room - n))
  {
    TakenExactly(sum, rx, s);
    BranchTaken(sum, rx, s);
    NumberExact(s);
    hide OnPacket, GetChunkSize, Number, Begins;
  }

  /** ... END keeps it if the checksum is that of its bytes, and removes it if not, ... */
  lemma EndTakenAs(sum: Sum, rx: Rx, s: seq<byte>)
    requires IsEnd(s, rx) && rx.out.value in rx.disk.files
    ensures OnPacket(sum, rx, s).Go?
    ensures var (t, files, name) := (OnPacket(sum, rx, s), rx.disk.files, rx.out.value);
            var whole := Number(s, 8) as bv32 == sum(files[name].bytes);
            && t.rest == s[16..] && t.rx.out.None? && !t.rx.waitChunk
            && t.rx.done == rx.done + (if whole then 1 else 0)
            && t.rx.disk.files == if whole then files[name := File(files[name].bytes, rx.outExec || files[name].exec)]
                                  else files - {name}
  {
    TakenExactly(sum, rx, s);
    BranchTaken(sum, rx, s);
    ChecksumExact(s, sum(rx.disk.files[rx.out.value].bytes));
    hide OnPacket, GetEndChecksum, Number, Begins;
    var files, name := rx.disk.files, rx.out.value;
    assert !rx.outExec ==> files == files[name := File(files[name].bytes, rx.outExec || files[name].exec)];
  }

  /** ... and whatever ends the transfer in failure takes the open file with it, but for a META of a name the
      directory refuses to open. */
  lemma EndedAs(sum: Sum, rx: Rx, s: seq<byte>)
    requires OnPacket(sum, rx, s).Stop?
    ensures OnPacket(sum, rx, s).outcome.files ==
            if IsDone(s) || rx.out.None? ||
               (Begins(s, 10, 144) && |s| >= 144 && IsSafeFilename(GetText(s[8..135])))
            then rx.disk.files
            else rx.disk.files - {rx.out.value}
  {
    hide GetMeta, GetText, GetChunkSize, GetEndChecksum, IsSafeFilename, GetCommon, GetU32;
    TakenExactly(sum, rx, s);
    if |s| >= 8 {
      HeaderExact(s, 10, 144);
      HeaderExact(s, 13, s[6] as int * 256 + s[7] as int);
      HeaderSizeExact(s);
      if |s| >= 144 {
        MetaExact(rx, s);
      }
    }
    hide Begins, Number;
  }
}
