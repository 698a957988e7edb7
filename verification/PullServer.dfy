/** server/server.c: sending the distribution files of the current week. */
module PullServer {
  import opened Bytes
  import opened Wire
  import opened Distribution
  import Crc32

  const FILE_CHUNK_SIZE := 64 * 1024
  const MAX_DIST_FILES := 64
  const MAX_FILE_SIZE := 100 * 1024 * 1024
  const DOT: byte := 0x2E

  /** One side of a connection; `wire` is all that has been accepted for sending, `failed` whether
      some send has failed. */
  class Connection {
    var wire: seq<byte>
    ghost var failed: bool

    constructor ()
      ensures wire == [] && !failed
    {
      wire := [];
      failed := false;
    }

    /** send: some first bytes of the buffer, or a failure. */
    method Send(data: seq<byte>) returns (n: int)
      requires data != []
      modifies this
      ensures n <= |data|
      ensures wire == if n > 0 then old(wire) + data[..n] else old(wire)
      ensures failed == (old(failed) || n <= 0)
    {
      n := *;
      if n > |data| {
        n := |data|;
      }
      if n > 0 {
        wire := wire + data[..n];
      } else {
        failed := true;
      }
    }

    /** _send_all: the whole buffer, or a proper part of it and failure. */
    method SendAll(data: seq<byte>) returns (ok: bool, ghost sent: nat)
      modifies this
      ensures sent <= |data| && wire == old(wire) + data[..sent]
      ensures ok <==> sent == |data|
      ensures failed == (old(failed) || !ok)
    {
      var done := 0;
      assert data[..0] == [];
      while done < |data|
        invariant done <= |data| && wire == old(wire) + data[..done] && failed == old(failed)
      {
        var n := Send(data[done..]);
        if n <= 0 {
          return false, done;
        }
        assert data[..done] + data[done..][..n] == data[..done + n];
        done := done + n;
      }
      ok, sent := true, done;
    }
  }

  /** A file open for reading; `remaining` is what read will still deliver before it returns 0 or fails. */
  class Source {
    var remaining: seq<byte>

    constructor (content: seq<byte>)
      ensures remaining == content
    {
      remaining := content;
    }

    method Read(n: nat) returns (data: seq<byte>)
      requires n > 0
      modifies this
      ensures old(remaining) == data + remaining && |data| <= n
      ensures data == [] ==> remaining == []
    {
      data := [];
      if remaining != [] {
        var k :| 1 <= k <= n && k <= |remaining|;
        data, remaining := remaining[..k], remaining[k..];
      }
    }
  }

  /** An entry of the distribution directory as readdir, stat, open, fstat and read show it. */
  datatype Entry = Entry(name: Text, regular: bool, opens: bool, size: nat, ownerExec: bool, content: seq<byte>)

  // -------------------------------------------------------------------------------- one file

  /** The name under which a file is sent. */
  function NameOf(e: Entry): Text {
    Truncate(e.name, MAX_FILENAME)
  }

  /** The META a file gets: its name, its size at the time of fstat. */
  function MetaOf(e: Entry, index: byte, total: byte): Meta {
    Meta(NameOf(e), e.size, if e.ownerExec then 1 else 0, index, total)
  }

  /** How the reads may have cut a file's contents. */
  predicate IsCut(chunks: seq<seq<byte>>, content: seq<byte>) {
    Concat(chunks) == content && forall c | c in chunks :: 1 <= |c| <= FILE_CHUNK_SIZE
  }

  predicate Sendable(e: Entry) {
    e.opens && e.size <= MAX_FILE_SIZE
  }

  /** d is file e, number index of total, cut some way, under the checksum of its contents. */
  predicate IsDeliveryOf(d: Delivery, e: Entry, index: byte, total: byte) {
    && d.meta == MetaOf(e, index, total)
    && IsCut(d.chunks, e.content)
    && d.checksum == Crc32.Checksum(e.content)
  }

  function OneChunkEach(content: seq<byte>): (chunks: seq<seq<byte>>)
    ensures IsCut(chunks, content)
  {
    if content == [] then []
    else if |content| <= FILE_CHUNK_SIZE then
      assert Concat([content]) == content + Concat([]);
      [content]
    else
      assert content[..FILE_CHUNK_SIZE] + content[FILE_CHUNK_SIZE..] == content;
      [content[..FILE_CHUNK_SIZE]] + OneChunkEach(content[FILE_CHUNK_SIZE..])
  }

  lemma PutU32Wraps(n: nat)
    ensures PutU32(n % 0x1_0000_0000) == PutU32(n)
  {
    var m := n % 0x1_0000_0000;
    assert m / 0x1_0000 == n / 0x1_0000 % 0x1_0000;
    assert m % 0x1_0000 == n % 0x1_0000;
    PutU16Wraps(n / 0x1_0000);
    PutU16Wraps(m);
    PutU16Wraps(n);
  }

  lemma PutU16Wraps(n: nat)
    ensures PutU16(n % 0x1_0000) == PutU16(n)
  {
    var q, r := n / 0x1_0000, n % 0x1_0000;
    DropMultiple(256 * q, r);
    DropMultiple(q, r / 256);
    assert n == 256 * (256 * q) + r;
  }

  lemma DropMultiple(q: nat, r: nat)
    ensures (256 * q + r) / 256 == q + r / 256 && (256 * q + r) % 256 == r % 256
  {
  }

  lemma SplitInside(a: seq<byte>, b: seq<byte>, c: seq<byte>, rest: seq<byte>, e: seq<byte>, k: nat)
    requires k <= |c|
    ensures (a + (b + (c + rest) + e))[..|a| + |b| + k] == a + b + c[..k]
  {
  }

  /** What the wire holds when a transfer stops k bytes into a chunk. */
  lemma CutInside(m: Meta, past: seq<seq<byte>>, next: seq<byte>, later: seq<seq<byte>>, checksum: bv32, k: nat)
    requires k < |ChunkBytes(next, |Concat(past)|)|
    ensures var d := Delivery(m, past + ([next] + later), checksum);
            var sent := META_SIZE + |ChunksBytes(past, 0)| + k;
            && sent < |DeliveryBytes(d)|
            && DeliveryBytes(d)[..sent] == MetaBytes(m) + ChunksBytes(past, 0) + ChunkBytes(next, |Concat(past)|)[..k]
  {
    hide *;
    var offset := |Concat(past)|;
    ChunksAppend(past, [next] + later, 0);
    ChunksCons(next, later, offset);
    SplitInside(MetaBytes(m), ChunksBytes(past, 0), ChunkBytes(next, offset), ChunksBytes(later, offset + |next|),
                EndBytes(checksum), k);
    DeliveryShape(Delivery(m, past + ([next] + later), checksum));
  }

  lemma DeliveryShape(d: Delivery)
    ensures DeliveryBytes(d) == MetaBytes(d.meta) + (ChunksBytes(d.chunks, 0) + EndBytes(d.checksum))
  {
  }

  /** The header and the bytes of one chunk; the offset on the wire is the running one modulo 2^32. */
  method SendChunk(conn: Connection, buf: seq<byte>, offset: nat, ghost position: nat)
    returns (ok: bool, ghost sent: nat)
    requires offset == position % 0x1_0000_0000
    modifies conn
    ensures sent <= |ChunkBytes(buf, position)| && conn.wire == old(conn.wire) + ChunkBytes(buf, position)[..sent]
    ensures ok <==> sent == |ChunkBytes(buf, position)|
    ensures conn.failed == (old(conn.failed) || !ok)
  {
    PutU32Wraps(position);
    var header := PutCommon(RES_FILE_CHUNK, CHUNK_SIZE) + PutChunk(|buf|, offset);
    ghost var whole := ChunkBytes(buf, position);
    assert whole == header + buf;
    ok, sent := conn.SendAll(header);
    TakeConcat(header, buf, sent);
    if ok {
      ghost var n;
      ok, n := conn.SendAll(buf);
      assert header[..sent] == header;
      TakeConcat(header, buf, |header| + n);
      sent := |header| + n;
    }
  }

  /** Where the read loop stands after the chunks `past`. */
  ghost predicate ReadLoop(content: seq<byte>, past: seq<seq<byte>>, remaining: seq<byte>, crc: bv32, offset: nat,
                           start: seq<byte>, wire: seq<byte>)
  {
    && content == Concat(past) + remaining
    && (forall c | c in past :: 1 <= |c| <= FILE_CHUNK_SIZE)
    && wire == start + ChunksBytes(past, 0)
    && crc == Crc32.Update(Crc32.INIT, Concat(past))
    && offset == |Concat(past)| % 0x1_0000_0000
  }

  lemma ReadLoopStarts(content: seq<byte>, start: seq<byte>)
    ensures ReadLoop(content, [], content, Crc32.INIT, 0, start, start)
  {
    Crc32.UpdateNothing(Crc32.INIT);
  }

  lemma ReadLoopStep(content: seq<byte>, past: seq<seq<byte>>, buf: seq<byte>, remaining: seq<byte>, crc: bv32,
                     crc': bv32, offset: nat, start: seq<byte>, wire: seq<byte>)
    requires ReadLoop(content, past, buf + remaining, crc, offset, start, wire)
    requires 1 <= |buf| <= FILE_CHUNK_SIZE && crc' == Crc32.Update(crc, buf)
    ensures ReadLoop(content, past + [buf], remaining, crc', (offset + |buf|) % 0x1_0000_0000,
                     start, wire + ChunkBytes(buf, |Concat(past)|))
  {
    hide Concat, ChunkBytes, ChunksBytes, Crc32.Update;
    SentWhole(past, buf);
    CrcStep(past, buf, crc, crc');
    WrapStep(|Concat(past)|, |buf|);
    SizesStep(past, buf);
    Assoc(Concat(past), buf, remaining);
    Assoc(start, ChunksBytes(past, 0), ChunkBytes(buf, |Concat(past)|));
  }

  lemma CrcStep(past: seq<seq<byte>>, buf: seq<byte>, crc: bv32, crc': bv32)
    requires crc == Crc32.Update(Crc32.INIT, Concat(past)) && crc' == Crc32.Update(crc, buf)
    ensures crc' == Crc32.Update(Crc32.INIT, Concat(past + [buf]))
  {
    hide Concat, Crc32.Update;
    SentWhole(past, buf);
    Crc32.UpdateConcat(Crc32.INIT, Concat(past), buf);
  }

  lemma SizesStep(past: seq<seq<byte>>, buf: seq<byte>)
    requires (forall c | c in past :: 1 <= |c| <= FILE_CHUNK_SIZE) && 1 <= |buf| <= FILE_CHUNK_SIZE
    ensures forall c | c in past + [buf] :: 1 <= |c| <= FILE_CHUNK_SIZE
  {
  }

  lemma ReadLoopEnds(content: seq<byte>, past: seq<seq<byte>>, crc: bv32, offset: nat, start: seq<byte>,
                     wire: seq<byte>)
    requires ReadLoop(content, past, [], crc, offset, start, wire)
    ensures IsCut(past, content) && crc == Crc32.Update(Crc32.INIT, content) && wire == start + ChunksBytes(past, 0)
  {
    hide ChunkBytes, Crc32.Update;
    assert Concat(past) + [] == Concat(past);
  }

  lemma ReadLoopCut(content: seq<byte>, past: seq<seq<byte>>, buf: seq<byte>, remaining: seq<byte>, crc: bv32,
                    offset: nat, start: seq<byte>, wire: seq<byte>)
    requires ReadLoop(content, past, buf + remaining, crc, offset, start, wire) && 1 <= |buf| <= FILE_CHUNK_SIZE
    ensures IsCut(past + ([buf] + OneChunkEach(remaining)), content)
    ensures offset == |Concat(past)| % 0x1_0000_0000 && wire == start + ChunksBytes(past, 0)
  {
    hide ChunkBytes, Crc32.Update;
    CutIsCut(past, buf, OneChunkEach(remaining), content, remaining);
  }

  /** The read loop: the contents in chunks, the checksum on the way. */
  method SendContents(conn: Connection, content: seq<byte>)
    returns (ok: bool, crc: bv32, ghost past: seq<seq<byte>>, ghost next: seq<byte>, ghost later: seq<seq<byte>>,
             ghost cut: nat)
    modifies conn
    ensures ok ==> IsCut(past, content) && crc == Crc32.Update(Crc32.INIT, content) &&
                   conn.wire == old(conn.wire) + ChunksBytes(past, 0)
    ensures !ok ==> IsCut(past + ([next] + later), content) && cut < |ChunkBytes(next, |Concat(past)|)| &&
                    conn.wire == old(conn.wire) + ChunksBytes(past, 0) + ChunkBytes(next, |Concat(past)|)[..cut]
    ensures conn.failed == (old(conn.failed) || !ok)
  {
    hide ReadLoop, ChunkBytes, ChunksBytes, Concat, IsCut, OneChunkEach, Crc32.Update;
    var file := new Source(content);
    var offset: nat := 0;
    crc, past, next, later, cut := Crc32.INIT, [], [], [], 0;
    ReadLoopStarts(content, conn.wire);
    while true
      invariant ReadLoop(content, past, file.remaining, crc, offset, old(conn.wire), conn.wire)
      invariant conn.failed == old(conn.failed)
      decreases |file.remaining|
    {
      var buf := file.Read(FILE_CHUNK_SIZE);
      if buf == [] {
        assert buf + file.remaining == file.remaining;
        break;
      }
      ReadLoopCut(content, past, buf, file.remaining, crc, offset, old(conn.wire), conn.wire);
      next, later := buf, OneChunkEach(file.remaining);
      var crc' := Crc32.Accumulate(crc, buf);
      ghost var wire := conn.wire;
      ok, cut := SendChunk(conn, buf, offset, |Concat(past)|);
      if !ok {
        crc := crc';
        return;
      }
      assert conn.wire == wire + ChunkBytes(buf, |Concat(past)|);
      ReadLoopStep(content, past, buf, file.remaining, crc, crc', offset, old(conn.wire), wire);
      past, crc, offset := past + [buf], crc', (offset + |buf|) % 0x1_0000_0000;
    }
    ReadLoopEnds(content, past, crc, offset, old(conn.wire), conn.wire);
    ok := true;
  }

  lemma WrapStep(a: nat, b: nat)
    ensures (a % 0x1_0000_0000 + b) % 0x1_0000_0000 == (a + b) % 0x1_0000_0000
  {
  }

  lemma SentWhole(past: seq<seq<byte>>, buf: seq<byte>)
    ensures Concat(past + [buf]) == Concat(past) + buf
    ensures ChunksBytes(past + [buf], 0) == ChunksBytes(past, 0) + ChunkBytes(buf, |Concat(past)|)
  {
    hide ChunkBytes;
    ConcatAppend(past, [buf]);
    ChunksAppend(past, [buf], 0);
    ChunksCons(buf, [], |Concat(past)|);
    assert [buf] + [] == [buf] && Concat([buf]) == buf;
  }

  lemma CutIsCut(past: seq<seq<byte>>, next: seq<byte>, later: seq<seq<byte>>, content: seq<byte>, rest: seq<byte>)
    requires content == Concat(past) + (next + rest) && IsCut(later, rest)
    requires (forall c | c in past :: 1 <= |c| <= FILE_CHUNK_SIZE) && 1 <= |next| <= FILE_CHUNK_SIZE
    ensures IsCut(past + ([next] + later), content)
  {
    ConcatAppend(past, [next] + later);
    assert ([next] + later)[1..] == later;
  }

  /** The first `sent` bytes of a delivery went out; `ok` when that is all of it. */
  ghost predicate PartSent(d: Delivery, sent: nat, ok: bool, before: seq<byte>, after: seq<byte>) {
    && sent <= |DeliveryBytes(d)|
    && after == before + DeliveryBytes(d)[..sent]
    && (ok <==> sent == |DeliveryBytes(d)|)
  }

  lemma IsDelivery(d: Delivery, e: Entry, index: byte, total: byte)
    requires d.meta == MetaOf(e, index, total) && IsCut(d.chunks, e.content) && d.checksum == Crc32.Checksum(e.content)
    ensures IsDeliveryOf(d, e, index, total)
    ensures Concat(d.chunks) == e.content && forall c | c in d.chunks :: 1 <= |c| <= 65536
  {
  }

  lemma CutInMeta(d: Delivery, n: nat, before: seq<byte>)
    requires n < META_SIZE
    ensures PartSent(d, n, false, before, before + MetaBytes(d.meta)[..n])
    ensures n == 0 ==> PartSent(d, n, false, before, before)
  {
    hide MetaBytes, EndBytes;
    TakeConcat(MetaBytes(d.meta), ChunksBytes(d.chunks, 0) + EndBytes(d.checksum), n);
  }

  lemma CutInChunks(m: Meta, past: seq<seq<byte>>, next: seq<byte>, later: seq<seq<byte>>, checksum: bv32, k: nat,
                    before: seq<byte>)
    requires k < |ChunkBytes(next, |Concat(past)|)|
    ensures PartSent(Delivery(m, past + ([next] + later), checksum), META_SIZE + |ChunksBytes(past, 0)| + k, false,
                     before, before + MetaBytes(m) + ChunksBytes(past, 0) + ChunkBytes(next, |Concat(past)|)[..k])
  {
    hide DeliveryBytes, MetaBytes, ChunkBytes, ChunksBytes;
    CutInside(m, past, next, later, checksum, k);
    Regroup(before, MetaBytes(m), ChunksBytes(past, 0), ChunkBytes(next, |Concat(past)|)[..k]);
  }

  lemma CutInEnd(m: Meta, chunks: seq<seq<byte>>, checksum: bv32, n: nat, before: seq<byte>)
    requires n <= END_SIZE
    ensures PartSent(Delivery(m, chunks, checksum), META_SIZE + |ChunksBytes(chunks, 0)| + n, n == END_SIZE, before,
                     before + MetaBytes(m) + ChunksBytes(chunks, 0) + EndBytes(checksum)[..n])
  {
    hide MetaBytes, EndBytes, ChunksBytes;
    Regroup(before, MetaBytes(m), ChunksBytes(chunks, 0), EndBytes(checksum)[..n]);
  }

  lemma Regroup(w: seq<byte>, a: seq<byte>, b: seq<byte>, c: seq<byte>)
    ensures w + a + b + c == w + (a + b + c)
  {
  }

  /** send_one_file: the file's delivery, or a proper part of it and failure. */
  method SendOneFile(conn: Connection, e: Entry, index: byte, total: byte)
    returns (ok: bool, ghost d: Delivery, ghost sent: nat)
    modifies conn
    ensures IsDeliveryOf(d, e, index, total)
    ensures PartSent(d, sent, ok, old(conn.wire), conn.wire)
    ensures !(e.opens && e.size <= 104857600) ==> sent == 0 && conn.failed == old(conn.failed)
    ensures e.opens && e.size <= 104857600 ==> conn.failed == (old(conn.failed) || !ok)
    ensures Concat(d.chunks) == e.content && forall c | c in d.chunks :: 1 <= |c| <= 65536
  {
    hide MetaBytes, EndBytes, ChunkBytes, ChunksBytes, Concat, IsCut, IsDeliveryOf, OneChunkEach, MetaOf, PartSent;
    hide Crc32.Update, Crc32.Checksum;
    var meta := MetaOf(e, index, total);
    d, sent := Delivery(meta, OneChunkEach(e.content), Crc32.Checksum(e.content)), 0;
    IsDelivery(d, e, index, total);
    CutInMeta(d, 0, conn.wire);
    if !e.opens || e.size > MAX_FILE_SIZE {
      return false, d, sent;
    }
    ok, sent := conn.SendAll(MetaBytes(meta));
    if !ok {
      CutInMeta(d, sent, old(conn.wire));
      return;
    }
    assert MetaBytes(meta)[..sent] == MetaBytes(meta);
    var crc;
    ghost var past, next, later, n;
    ok, crc, past, next, later, n := SendContents(conn, e.content);
    if !ok {
      CutInChunks(meta, past, next, later, d.checksum, n, old(conn.wire));
      d, sent := d.(chunks := past + ([next] + later)), META_SIZE + |ChunksBytes(past, 0)| + n;
      IsDelivery(d, e, index, total);
      return;
    }
    Crc32.ChecksumOf(e.content, crc);
    d := Delivery(meta, past, !crc);
    IsDelivery(d, e, index, total);
    ok, n := conn.SendAll(EndBytes(!crc));
    sent := META_SIZE + |ChunksBytes(past, 0)| + n;
    CutInEnd(meta, past, !crc, n, old(conn.wire));
  }

  // ------------------------------------------------------------------------------ the whole pull

  /** What readdir's loop keeps of the directory: regular files whose names do not start with a
      dot, the first MAX_DIST_FILES of them. */
  function Listing(dir: seq<Entry>, limit: nat): (files: seq<Entry>)
    ensures |files| <= limit
    decreases |dir|
  {
    if dir == [] || limit == 0 then []
    else if Distributed(dir[0]) then [dir[0]] + Listing(dir[1..], limit - 1)
    else Listing(dir[1..], limit)
  }

  predicate Distributed(e: Entry) {
    !(e.name != [] && e.name[0] == DOT) && e.regular
  }

  /** These are the files of the directory to be sent: its regular files whose names do not start with a
      dot, in the directory's order, all of them or the first 64. */
  ghost predicate IsListingOf(files: seq<Entry>, dir: seq<Entry>) {
    exists at: seq<nat> :: Picks(at, files, dir, 64)
  }

  /** The files stand at these places of the directory, and those left out come after `limit` others. */
  ghost predicate Picks(at: seq<nat>, files: seq<Entry>, dir: seq<Entry>, limit: nat) {
    |at| == |files| <= limit && ArePlaces(at, files, dir) && Increasing(at) && LeavesOut(at, dir, limit)
  }

  ghost predicate ArePlaces(at: seq<nat>, files: seq<Entry>, dir: seq<Entry>)
    requires |at| == |files|
  {
    forall k :: 0 <= k < |at| ==> at[k] < |dir| && files[k] == dir[at[k]] && IsVisible(files[k])
  }

  ghost predicate Increasing(at: seq<nat>) {
    forall j, k :: 0 <= j < k < |at| ==> at[j] < at[k]
  }

  ghost predicate LeavesOut(at: seq<nat>, dir: seq<Entry>, limit: nat) {
    forall i :: 0 <= i < |dir| && IsVisible(dir[i]) && i !in at ==> |at| == limit && AllBelow(at, i)
  }

  /** A regular file whose name does not start with a dot. */
  predicate IsVisible(e: Entry) {
    e.regular && (e.name == [] || e.name[0] != 0x2E)
  }

  predicate AllBelow(at: seq<nat>, i: int) {
    forall k :: 0 <= k < |at| ==> at[k] < i
  }

  function OneOn(at: seq<nat>): (r: seq<nat>)
    ensures |r| == |at| && forall k :: 0 <= k < |at| ==> r[k] == at[k] + 1
  {
    seq(|at|, k requires 0 <= k < |at| => at[k] + 1)
  }

  /** One more place, at the front. */
  function AtFront(at: seq<nat>): (r: seq<nat>)
    ensures |r| == |at| + 1 && r[0] == 0 && forall k :: 0 < k <= |at| ==> r[k] == at[k - 1] + 1
  {
    [0] + OneOn(at)
  }

  lemma {:induction false} ListingPicks(dir: seq<Entry>, limit: nat) returns (at: seq<nat>)
    ensures Picks(at, Listing(dir, limit), dir, limit)
    decreases |dir|
  {
    if dir == [] || limit == 0 {
      at := [];
    } else {
      DistributedIsVisible(dir[0]);
      hide Picks, Distributed, IsVisible;
      if Distributed(dir[0]) {
        var rest := ListingPicks(dir[1..], limit - 1);
        at := AtFront(rest);
        PicksOneOn(rest, Listing(dir[1..], limit - 1), dir, limit - 1);
      } else {
        var rest := ListingPicks(dir[1..], limit);
        at := OneOn(rest);
        PicksOneOn(rest, Listing(dir[1..], limit), dir, limit);
      }
    }
  }

  lemma DistributedIsVisible(e: Entry)
    ensures Distributed(e) <==> IsVisible(e)
  {
  }

  lemma OneOnHas(at: seq<nat>, i: int)
    requires i >= 1
    ensures i in OneOn(at) <==> i - 1 in at
    ensures AllBelow(at, i - 1) ==> AllBelow(OneOn(at), i)
    ensures i in AtFront(at) <==> i - 1 in at
    ensures AllBelow(at, i - 1) ==> AllBelow(AtFront(at), i)
  {
    if i - 1 in at {
      var k :| 0 <= k < |at| && at[k] == i - 1;
      assert OneOn(at)[k] == i;
    }
  }

  lemma OneOnPlaces(at: seq<nat>, files: seq<Entry>, dir: seq<Entry>)
    requires dir != [] && |at| == |files| && ArePlaces(at, files, dir[1..])
    ensures ArePlaces(OneOn(at), files, dir)
    ensures IsVisible(dir[0]) ==> ArePlaces(AtFront(at), [dir[0]] + files, dir)
  {
    hide IsVisible;
    forall k | 0 <= k < |at| ensures at[k] + 1 < |dir| && files[k] == dir[at[k] + 1] && IsVisible(files[k]) {
      assert files[k] == dir[1..][at[k]];
    }
  }

  lemma OneOnIncreasing(at: seq<nat>)
    requires Increasing(at)
    ensures Increasing(OneOn(at)) && Increasing(AtFront(at))
  {
    var next := AtFront(at);
    forall j, k | 0 <= j < k < |next| ensures next[j] < next[k] {
      if j > 0 {
        assert at[j - 1] < at[k - 1];
      }
    }
  }

  lemma OneOnLeavesOut(at: seq<nat>, dir: seq<Entry>, limit: nat)
    requires dir != [] && LeavesOut(at, dir[1..], limit)
    ensures !IsVisible(dir[0]) ==> LeavesOut(OneOn(at), dir, limit)
    ensures LeavesOut(AtFront(at), dir, limit + 1)
  {
    hide IsVisible, AllBelow;
    forall i | 1 <= i < |dir| && IsVisible(dir[i]) && i - 1 !in at ensures |at| == limit && AllBelow(at, i - 1) {
      assert dir[i] == dir[1..][i - 1];
    }
    forall i | 1 <= i < |dir|
      ensures (i in OneOn(at) <==> i - 1 in at) && (i in AtFront(at) <==> i - 1 in at)
      ensures AllBelow(at, i - 1) ==> AllBelow(OneOn(at), i) && AllBelow(AtFront(at), i)
    {
      OneOnHas(at, i);
    }
    assert AtFront(at)[0] == 0;
    hide OneOn, AtFront;
  }

  /** One entry before the others: one that is sent, or one that is not. */
  lemma PicksOneOn(at: seq<nat>, files: seq<Entry>, dir: seq<Entry>, limit: nat)
    requires dir != [] && Picks(at, files, dir[1..], limit)
    ensures IsVisible(dir[0]) ==> Picks(AtFront(at), [dir[0]] + files, dir, limit + 1)
    ensures !IsVisible(dir[0]) ==> Picks(OneOn(at), files, dir, limit)
  {
    hide IsVisible, ArePlaces, Increasing, LeavesOut;
    OneOnPlaces(at, files, dir);
    OneOnIncreasing(at);
    OneOnLeavesOut(at, dir, limit);
  }

  lemma ListingIsOf(dir: seq<Entry>)
    ensures IsListingOf(Listing(dir, MAX_DIST_FILES), dir)
  {
    var at := ListingPicks(dir, MAX_DIST_FILES);
  }

  method CollectFiles(dir: seq<Entry>) returns (files: seq<Entry>)
    ensures files == Listing(dir, MAX_DIST_FILES) && IsListingOf(files, dir)
  {
    hide IsListingOf, Picks;
    ListingIsOf(dir);
    files := [];
    var i := 0;
    assert dir[0..] == dir;
    while i < |dir| && |files| < MAX_DIST_FILES
      invariant i <= |dir| && |files| <= MAX_DIST_FILES
      invariant files + Listing(dir[i..], MAX_DIST_FILES - |files|) == Listing(dir, MAX_DIST_FILES)
    {
      assert dir[i..][1..] == dir[i + 1..];
      if Distributed(dir[i]) {
        files := files + [dir[i]];
      }
      i := i + 1;
    }
  }

  /** The deliveries of the first files of a listing, numbered from 1. */
  ghost predicate IsTransferOf(ds: seq<Delivery>, files: seq<Entry>) {
    && |ds| <= |files| <= MAX_DIST_FILES
    && forall i :: 0 <= i < |ds| ==> IsDeliveryOf(ds[i], files[i], i + 1, |files|)
  }

  lemma {:induction false} DeliveriesSnoc(ds: seq<Delivery>, d: Delivery)
    ensures DeliveriesBytes(ds + [d]) == DeliveriesBytes(ds) + DeliveryBytes(d)
  {
    hide DeliveryBytes;
    if ds == [] {
      assert ds + [d] == [d] && [d][1..] == [];
    } else {
      assert (ds + [d])[1..] == ds[1..] + [d];
      DeliveriesSnoc(ds[1..], d);
      Assoc(DeliveryBytes(ds[0]), DeliveriesBytes(ds[1..]), DeliveryBytes(d));
    }
  }

  /** send_pull_error, and the final DONE: sent if the connection still takes it. */
  method SendTail(conn: Connection, tail: Tail) returns (ghost n: nat)
    modifies conn
    ensures n <= |TailBytes(tail)| && conn.wire == old(conn.wire) + TailBytes(tail)[..n]
    ensures conn.failed == (old(conn.failed) || n < |TailBytes(tail)|)
  {
    var ok;
    ok, n := conn.SendAll(TailBytes(tail));
  }

  /** Why a transfer stopped before DONE: at file number |ds|, after k bytes of it. */
  ghost predicate StoppedAt(files: seq<Entry>, ds: seq<Delivery>, broken: seq<byte>, failed: bool) {
    && |ds| < |files| <= MAX_DIST_FILES
    && (forall j :: 0 <= j < |ds| ==> Sendable(files[j]))
    && (Sendable(files[|ds|]) ==> failed)
    && (!Sendable(files[|ds|]) ==> broken == [])
    && exists d, k :: IsDeliveryOf(d, files[|ds|], |ds| + 1, |files|) &&
                      0 <= k < |DeliveryBytes(d)| && broken == DeliveryBytes(d)[..k]
  }

  /** handle_file_pull. The listing's files in order, then DONE; or the files before the first
      that could not be sent, whatever of that one went out, then ERROR with its name. The wording of
      the other two messages is a parameter. */
  method HandleFilePull(conn: Connection, dirOpens: bool, dir: seq<Entry>, noDir: Text, noFiles: Text)
    returns (ghost ds: seq<Delivery>, ghost broken: seq<byte>, ghost tail: Tail, ghost n: nat)
    modifies conn
    ensures n <= |TailBytes(tail)|
    ensures conn.wire == old(conn.wire) + DeliveriesBytes(ds) + broken + TailBytes(tail)[..n]
    ensures n < |TailBytes(tail)| ==> conn.failed
    ensures var files := Listing(dir, MAX_DIST_FILES);
            && IsListingOf(files, dir) && IsTransferOf(ds, files)
            && (!dirOpens ==> ds == [] && broken == [] && tail == Failed(noDir))
            && (dirOpens && files == [] ==> ds == [] && broken == [] && tail == Failed(noFiles))
            && (dirOpens && files != [] && tail.AllSent? ==>
                  |ds| == |files| && broken == [] && tail == AllSent(|files|) && forall e | e in files :: Sendable(e))
            && (dirOpens && files != [] && tail.Failed? ==>
                  StoppedAt(files, ds, broken, conn.failed) && tail == Failed(FailedMessage(NameOf(files[|ds|]))))
  {
    hide DeliveryBytes, TailBytes, IsDeliveryOf, PartSent, IsListingOf, Listing, Concat, NameOf, FailedMessage;
    ds, broken := [], [];
    ListingIsOf(dir);
    assert IsTransferOf(ds, Listing(dir, MAX_DIST_FILES));
    if !dirOpens {
      tail := Failed(noDir);
      n := SendTail(conn, Failed(noDir));
      return;
    }
    var files := CollectFiles(dir);
    if |files| == 0 {
      tail := Failed(noFiles);
      n := SendTail(conn, Failed(noFiles));
      return;
    }
    for i := 0 to |files|
      invariant |ds| == i && IsTransferOf(ds, files) && broken == []
      invariant conn.wire == old(conn.wire) + DeliveriesBytes(ds)
      invariant forall j :: 0 <= j < i ==> Sendable(files[j])
    {
      ghost var start := conn.wire;
      var ok;
      ghost var d, sent;
      ok, d, sent := SendOneFile(conn, files[i], i + 1, |files|);
      PartOf(d, sent, ok, start, conn.wire);
      if !ok {
        broken, tail := DeliveryBytes(d)[..sent], Failed(FailedMessage(NameOf(files[i])));
        assert StoppedAt(files, ds, broken, conn.failed);
        n := SendTail(conn, Failed(FailedMessage(NameOf(files[i]))));
        return;
      }
      DeliveriesSnoc(ds, d);
      Assoc(old(conn.wire), DeliveriesBytes(ds), DeliveryBytes(d));
      ds := ds + [d];
    }
    tail := AllSent(|files|);
    n := SendTail(conn, AllSent(|files|));
  }

  lemma PartOf(d: Delivery, sent: nat, ok: bool, before: seq<byte>, after: seq<byte>)
    requires PartSent(d, sent, ok, before, after)
    ensures sent <= |DeliveryBytes(d)| && after == before + DeliveryBytes(d)[..sent]
    ensures !ok ==> sent < |DeliveryBytes(d)|
    ensures ok ==> after == before + DeliveryBytes(d)
  {
    hide DeliveryBytes;
  }
}
