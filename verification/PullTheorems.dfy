/** What the two ends of the file-distribution protocol guarantee together. */
module PullTheorems {
  import opened Bytes
  import opened Wire
  import opened Receiver
  import opened Distribution
  import opened Interrupted
  import opened PullServer
  import opened Client
  import Crc32
  import Gf2

  // ---------------------------------------------------------------------- the directory afterwards

  predicate DistinctNames(ds: seq<Delivery>) {
    forall i, j :: 0 <= i < j < |ds| ==> ds[i].meta.name != ds[j].meta.name
  }

  predicate IsIntact(sum: Sum, d: Delivery) {
    d.checksum == sum(Concat(d.chunks))
  }

  lemma {:induction false} InstallAllOther(sum: Sum, files: Dir, ds: seq<Delivery>, name: Text)
    requires forall d | d in ds :: d.meta.name != name
    ensures SameAt(files, InstallAll(sum, files, ds), name)
    decreases |ds|
  {
    if ds != [] {
      assert ds[0].meta.name != name;
      InstallAllOther(sum, Install(sum, files, ds[0]), ds[1..], name);
    }
  }

  /** Each file of a transfer ends up under its name with its bytes if it arrived intact and is
      gone otherwise; its mode is the sender's, plus what an older file of that name had. */
  lemma {:induction false} InstallAllAt(sum: Sum, files: Dir, ds: seq<Delivery>, i: nat)
    requires i < |ds| && DistinctNames(ds)
    ensures var r, d := InstallAll(sum, files, ds), ds[i];
            if IsIntact(sum, d) then
              d.meta.name in r &&
              r[d.meta.name] == File(Concat(d.chunks),
                                     d.meta.exec != 0 || (d.meta.name in files && files[d.meta.name].exec))
            else d.meta.name !in r
    decreases |ds|
  {
    var next := Install(sum, files, ds[0]);
    if i == 0 {
      forall d | d in ds[1..] ensures d.meta.name != ds[0].meta.name {
        var j :| 0 <= j < |ds[1..]| && ds[1..][j] == d;
        assert ds[j + 1] == d;
      }
      InstallAllOther(sum, next, ds[1..], ds[0].meta.name);
      assert SameAt(next, InstallAll(sum, files, ds), ds[0].meta.name);
    } else {
      forall j, k | 0 <= j < k < |ds[1..]| ensures ds[1..][j].meta.name != ds[1..][k].meta.name {
        assert ds[j + 1].meta.name != ds[k + 1].meta.name;
      }
      InstallAllAt(sum, next, ds[1..], i - 1);
      assert ds[0].meta.name != ds[i].meta.name;
      assert ds[1..][i - 1] == ds[i];
    }
  }

  lemma {:induction false} IntactAll(sum: Sum, ds: seq<Delivery>)
    requires forall d | d in ds :: IsIntact(sum, d)
    ensures Intact(sum, ds) == |ds|
  {
    if ds != [] {
      assert ds[0] in ds;
      IntactAll(sum, ds[1..]);
    }
  }

  // ------------------------------------------------------------------------- an undisturbed transfer

  /** Names without zeros that stay different when cut to 127 bytes. */
  predicate Named(files: seq<Entry>) {
    && (forall e | e in files :: NoZero(e.name))
    && (forall i, j :: 0 <= i < j < |files| ==> NameOf(files[i]) != NameOf(files[j]))
  }

  /** A listing a client can take: names the receiver accepts, and room for all files. */
  predicate Takeable(files: seq<Entry>, disk: Disk) {
    && Named(files)
    && (forall e | e in files :: !Refuses(disk, NameOf(e)))
    && TotalBytes(files) <= disk.room
  }

  /** And that the sender will send. */
  predicate Distributable(files: seq<Entry>, disk: Disk) {
    Takeable(files, disk) && forall e | e in files :: Sendable(e)
  }

  function TotalBytes(files: seq<Entry>): nat {
    if files == [] then 0 else |files[0].content| + TotalBytes(files[1..])
  }

  lemma DeliveryIsWellFormed(d: Delivery, e: Entry, index: byte, total: byte)
    requires IsDeliveryOf(d, e, index, total) && NoZero(e.name) && Sendable(e)
    ensures WellFormed(d) && |Concat(d.chunks)| == |e.content|
  {
    forall b | b in NameOf(e) ensures b != 0 {
      assert b in e.name;
    }
  }

  lemma {:induction false} VolumeIsTotal(ds: seq<Delivery>, files: seq<Entry>)
    requires |ds| == |files|
    requires forall i :: 0 <= i < |ds| ==> Concat(ds[i].chunks) == files[i].content
    ensures Volume(ds) == TotalBytes(files)
  {
    if ds != [] {
      assert Concat(ds[0].chunks) == files[0].content;
      forall i | 0 <= i < |ds[1..]| ensures Concat(ds[1..][i].chunks) == files[1..][i].content {
        assert Concat(ds[i + 1].chunks) == files[i + 1].content;
      }
      VolumeIsTotal(ds[1..], files[1..]);
    }
  }

  lemma TransferAccepted(files: seq<Entry>, ds: seq<Delivery>, disk: Disk)
    requires IsTransferOf(ds, files) && Distributable(files[..|ds|], disk)
    ensures Accepts(disk, ds) && DistinctNames(ds) && Volume(ds) == TotalBytes(files[..|ds|])
    ensures forall d | d in ds :: IsIntact(Crc32.Checksum, d)
  {
    var listed := files[..|ds|];
    forall i | 0 <= i < |ds|
      ensures Valid(ds[i]) && ds[i].meta.name == NameOf(listed[i]) && ds[i].meta.name !in disk.blocked
      ensures Concat(ds[i].chunks) == listed[i].content && IsIntact(Crc32.Checksum, ds[i])
    {
      assert listed[i] in listed && IsDeliveryOf(ds[i], files[i], i + 1, |files|);
      DeliveryIsWellFormed(ds[i], files[i], i + 1, |files|);
    }
    VolumeIsTotal(ds, listed);
  }

  /** The directory holds exactly the files of the listing, and what it held under other names. */
  ghost predicate HoldsExactly(after: Dir, before: Dir, files: seq<Entry>) {
    && (forall i :: 0 <= i < |files| ==>
          var name := NameOf(files[i]);
          && name in after
          && after[name].bytes == files[i].content
          && after[name].exec == (files[i].ownerExec || (name in before && before[name].exec)))
    && (forall name: Text :: (forall e | e in files :: NameOf(e) != name) ==> SameAt(before, after, name))
  }

  lemma Installed(files: seq<Entry>, ds: seq<Delivery>, disk: Disk, k: nat)
    requires IsTransferOf(ds, files) && Distributable(files[..|ds|], disk) && k <= |ds|
    ensures HoldsExactly(InstallAll(Crc32.Checksum, disk.files, ds[..k]), disk.files, files[..k])
    ensures Intact(Crc32.Checksum, ds[..k]) == k
  {
    hide Crc32.Checksum, IsDeliveryOf, IsIntact, InstallAll, Intact;
    var sum, sent, listed := Crc32.Checksum, ds[..k], files[..k];
    TransferAccepted(files, ds, disk);
    IntactAll(sum, sent);
    forall i | 0 <= i < k
      ensures sent[i].meta.name == NameOf(listed[i]) && Concat(sent[i].chunks) == listed[i].content
      ensures (sent[i].meta.exec != 0) == listed[i].ownerExec && IsIntact(sum, sent[i])
    {
      assert ds[i] in ds && IsDeliveryOf(ds[i], files[i], i + 1, |files|);
      DeliveryFields(ds[i], files[i], i + 1, |files|);
    }
    InstalledIn(sum, disk.files, sent, listed);
  }

  lemma DeliveryFields(d: Delivery, e: Entry, index: byte, total: byte)
    requires IsDeliveryOf(d, e, index, total)
    ensures d.meta.name == NameOf(e) && Concat(d.chunks) == e.content && (d.meta.exec != 0) == e.ownerExec
  {
  }

  lemma InstalledIn(sum: Sum, before: Dir, sent: seq<Delivery>, listed: seq<Entry>)
    requires |sent| == |listed| && DistinctNames(sent)
    requires forall i :: 0 <= i < |sent| ==>
               && sent[i].meta.name == NameOf(listed[i]) && Concat(sent[i].chunks) == listed[i].content
               && (sent[i].meta.exec != 0) == listed[i].ownerExec && IsIntact(sum, sent[i])
    ensures HoldsExactly(InstallAll(sum, before, sent), before, listed)
  {
    hide InstallAll, NameOf, Concat;
    var after := InstallAll(sum, before, sent);
    forall i | 0 <= i < |sent|
      ensures var name := NameOf(listed[i]);
              && name in after
              && after[name].bytes == listed[i].content
              && after[name].exec == (listed[i].ownerExec || (name in before && before[name].exec))
    {
      InstallAllAt(sum, before, sent, i);
    }
    forall name: Text | forall e | e in listed :: NameOf(e) != name
      ensures SameAt(before, after, name)
    {
      forall d | d in sent ensures d.meta.name != name {
        var i :| 0 <= i < |sent| && sent[i] == d;
        assert listed[i] in listed;
      }
      InstallAllOther(sum, before, sent, name);
    }
  }

  /** The round trip. However the reads cut the files, the client ends with exactly the files the
      server sent whole, and reports success when that was all of them (DONE) and failure when the
      server stopped before one it could not open (ERROR). With the contracts of HandleFilePull and
      DoPull this covers every fragmentation of either direction. */
  lemma PullRoundTrip(files: seq<Entry>, ds: seq<Delivery>, disk: Disk, tail: Tail)
    requires IsTransferOf(ds, files) && Distributable(files[..|ds|], disk)
    ensures var o := Run(Crc32.Checksum, Start(disk), DeliveriesBytes(ds) + TailBytes(tail));
            && (o.code == 0 <==> tail.AllSent?)
            && o.done == |ds|
            && HoldsExactly(o.files, disk.files, files[..|ds|])
  {
    hide Run, OnPacket, Crc32.Checksum, DeliveriesBytes, TailBytes;
    TransferAccepted(files, ds, disk);
    RunAll(Crc32.Checksum, Start(disk), ds, tail);
    Installed(files, ds, disk, |ds|);
    assert ds[..|ds|] == ds;
  }

  /** After a transfer a file's mode is the sender's if and only if it was not a file without the
      execute permission that came over one that had it: open with O_TRUNC keeps the old mode and
      nothing clears it. */
  lemma ModeIsSendersExactly(files: seq<Entry>, ds: seq<Delivery>, disk: Disk, tail: Tail, i: nat)
    requires IsTransferOf(ds, files) && Distributable(files[..|ds|], disk) && i < |ds|
    ensures var after := Run(Crc32.Checksum, Start(disk), DeliveriesBytes(ds) + TailBytes(tail)).files;
            var name := NameOf(files[i]);
            && name in after
            && (after[name].exec == files[i].ownerExec <==>
                files[i].ownerExec || name !in disk.files || !disk.files[name].exec)
  {
    hide Run, Crc32.Checksum, DeliveriesBytes, TailBytes, NameOf, IsDeliveryOf;
    PullRoundTrip(files, ds, disk, tail);
    assert files[..|ds|][i] == files[i];
  }

  /** It happens: an empty file without the permission, fetched over an executable one of its name,
      ends executable. */
  lemma OldModeStays() returns (e: Entry, d: Delivery, disk: Disk)
    ensures IsTransferOf([d], [e]) && Distributable([e], disk)
    ensures var after := Run(Crc32.Checksum, Start(disk), DeliveriesBytes([d]) + TailBytes(AllSent(1)));
            after.code == 0 && !e.ownerExec && NameOf(e) in after.files && after.files[NameOf(e)] == File([], true)
  {
    hide Run, Crc32.Checksum, DeliveriesBytes, TailBytes;
    e := Entry([0x61], true, true, 0, false, []);
    disk := Disk(map[[0x61] := File([], true)], {}, 0);
    d := Delivery(MetaOf(e, 1, 1), [], Crc32.Checksum([]));
    SafeFilenameExact([0x61]);
    var files := [e];
    assert files[..1] == files && TotalBytes(files[1..]) == 0;
    assert IsDeliveryOf(d, e, 1, 1);
    PullRoundTrip(files, [d], disk, AllSent(1));
    ModeIsSendersExactly(files, [d], disk, AllSent(1), 0);
    assert HoldsExactly(Run(Crc32.Checksum, Start(disk), DeliveriesBytes([d]) + TailBytes(AllSent(1))).files,
                        disk.files, files);
  }

  /** The client never compares a file with the size in its META: a file that the server could read
      only in part comes through as a success, with the size announced if and only if it was read whole. */
  lemma SizeIsNotChecked(files: seq<Entry>, ds: seq<Delivery>, disk: Disk, total: byte)
    requires IsTransferOf(ds, files) && |ds| == |files| && Distributable(files, disk)
    ensures var o := Run(Crc32.Checksum, Start(disk), DeliveriesBytes(ds) + TailBytes(AllSent(total)));
            && o.code == 0 && o.done == |files|
            && (forall i :: 0 <= i < |files| ==>
                  && NameOf(files[i]) in o.files
                  && (|o.files[NameOf(files[i])].bytes| == ds[i].meta.fileSize <==>
                      |files[i].content| == files[i].size))
  {
    hide Run, Crc32.Checksum, DeliveriesBytes, TailBytes, NameOf;
    assert files[..|ds|] == files;
    PullRoundTrip(files, ds, disk, AllSent(total));
    forall i | 0 <= i < |files| ensures ds[i].meta.fileSize == files[i].size {
      assert IsDeliveryOf(ds[i], files[i], i + 1, |files|);
    }
  }

  /** It happens: a file of one byte whose read fails ends as an empty file, and as a success. */
  lemma FailedReadSucceeds() returns (e: Entry, d: Delivery, disk: Disk)
    ensures IsTransferOf([d], [e]) && Distributable([e], disk) && d.meta.fileSize == 1
    ensures Run(Crc32.Checksum, Start(disk), DeliveriesBytes([d]) + TailBytes(AllSent(1))) ==
            Outcome(0, map[NameOf(e) := File([], false)], 1)
  {
    hide Run, Crc32.Checksum, DeliveriesBytes, TailBytes;
    e := Entry([0x61], true, true, 1, false, []);
    disk := Disk(map[], {}, 0);
    d := Delivery(MetaOf(e, 1, 1), [], Crc32.Checksum([]));
    SafeFilenameExact([0x61]);
    assert [e][..1] == [e] && TotalBytes([e][1..]) == 0 && IsDeliveryOf(d, e, 1, 1);
    TransferAccepted([e], [d], disk);
    RunAll(Crc32.Checksum, Start(disk), [d], AllSent(1));
    assert [d][1..] == [];
  }

  lemma ChunkAt(chunks: seq<seq<byte>>, k: nat)
    requires k < |chunks|
    ensures ChunksBytes(chunks, 0) ==
            ChunksBytes(chunks[..k], 0) + (ChunkBytes(chunks[k], |Concat(chunks[..k])|)
            + ChunksBytes(chunks[k + 1..], |Concat(chunks[..k])| + |chunks[k]|))
  {
    hide ChunkBytes, ChunksBytes, Concat;
    var past, next, later := chunks[..k], chunks[k], chunks[k + 1..];
    assert chunks == past + ([next] + later);
    ChunksAppend(past, [next] + later, 0);
    ChunksCons(next, later, |Concat(past)|);
  }

  /** In a delivery every chunk is announced at the offset where the ones before it end, and they add
      up to the size its META announced if and only if that many bytes could be read. */
  lemma OffsetsAddUp(d: Delivery, e: Entry, index: byte, total: byte, k: nat)
    requires IsDeliveryOf(d, e, index, total) && k < |d.chunks|
    ensures ChunksBytes(d.chunks, 0) ==
            ChunksBytes(d.chunks[..k], 0) + (ChunkBytes(d.chunks[k], |Concat(d.chunks[..k])|)
            + ChunksBytes(d.chunks[k + 1..], |Concat(d.chunks[..k])| + |d.chunks[k]|))
    ensures |Concat(d.chunks)| == d.meta.fileSize <==> |e.content| == e.size
  {
    hide ChunkBytes, ChunksBytes, Concat, Crc32.Checksum, Truncate;
    ChunkAt(d.chunks, k);
  }

  // ---------------------------------------------------------------------------- disturbed transfers

  /** The connection is lost after n bytes: the k files whose END arrived are there, the one in
      progress is not (nor is an older file of its name), and only a DONE whose first 8 bytes
      arrived counts as success. */
  lemma LostConnection(files: seq<Entry>, ds: seq<Delivery>, disk: Disk, tail: Tail, n: nat)
    requires IsTransferOf(ds, files) && Distributable(files[..|ds|], disk)
    ensures n <= |DeliveriesBytes(ds) + TailBytes(tail)| ==>
              var o := Run(Crc32.Checksum, Start(disk), (DeliveriesBytes(ds) + TailBytes(tail))[..n]);
              var k := Complete(ds, n);
              var installed := InstallAll(Crc32.Checksum, disk.files, ds[..k]);
              && (o.code == 0 <==> tail.AllSent? && n >= |DeliveriesBytes(ds)| + COMMON_SIZE)
              && o.done == k
              && HoldsExactly(installed, disk.files, files[..k])
              && o.files == if k < |ds| && n >= |DeliveriesBytes(ds[..k])| + META_SIZE
                            then installed - {NameOf(files[k])} else installed
  {
    hide Run, OnPacket, Crc32.Checksum, DeliveriesBytes, TailBytes;
    if n <= |DeliveriesBytes(ds) + TailBytes(tail)| {
      var k := Complete(ds, n);
      TransferAccepted(files, ds, disk);
      RunPrefix(Crc32.Checksum, Start(disk), ds, tail, n);
      Installed(files, ds, disk, k);
      if k < |ds| {
        assert IsDeliveryOf(ds[k], files[k], k + 1, |files|);
      }
    }
  }

  /** The delivery of `original`, with some of its bits changed, all between bit number at and bit
      number at + len. */
  ghost predicate DamagedWithin(d: Delivery, original: seq<byte>, at: nat, len: nat) {
    && d.checksum == Crc32.Checksum(original) && Concat(d.chunks) != original
    && Gf2.AgreeOutside(Crc32.BitsOf(Concat(d.chunks)), Crc32.BitsOf(original), at, len)
  }

  /** Contents damaged on the way within any 32 consecutive bits never stay: the file is removed,
      the files that arrived intact are all there, and still the client reports success. */
  lemma DamagedFileRemoved(ds: seq<Delivery>, disk: Disk, total: byte, i: nat, original: seq<byte>, at: nat, len: nat)
    requires Accepts(disk, ds) && DistinctNames(ds) && i < |ds|
    ensures var o := Run(Crc32.Checksum, Start(disk), DeliveriesBytes(ds) + TailBytes(AllSent(total)));
            && o.code == 0
            && (DamagedWithin(ds[i], original, at, len) && len <= 32 ==> ds[i].meta.name !in o.files)
            && (forall j :: 0 <= j < |ds| && IsIntact(Crc32.Checksum, ds[j]) ==>
                  ds[j].meta.name in o.files && o.files[ds[j].meta.name].bytes == Concat(ds[j].chunks))
  {
    hide Run, OnPacket, Crc32.Checksum, DeliveriesBytes, TailBytes;
    if DamagedWithin(ds[i], original, at, len) && len <= 32 {
      Crc32.BurstDetected(Concat(ds[i].chunks), original, at, len);
    }
    RunAll(Crc32.Checksum, Start(disk), ds, AllSent(total));
    forall j | 0 <= j < |ds|
      ensures var r, d := InstallAll(Crc32.Checksum, disk.files, ds), ds[j];
              if IsIntact(Crc32.Checksum, d) then d.meta.name in r && r[d.meta.name].bytes == Concat(d.chunks)
              else d.meta.name !in r
    {
      InstallAllAt(Crc32.Checksum, disk.files, ds, j);
    }
  }

  // ------------------------------------------------------------- transfers that break off in a file

  /** The directory holds exactly the files of the listing, and what it held under other names, except
      those that are gone. */
  ghost predicate HoldsWithout(after: Dir, before: Dir, files: seq<Entry>, gone: set<Text>) {
    exists all: Dir :: HoldsExactly(all, before, files) && after == all - gone
  }

  lemma HoldsAll(after: Dir, before: Dir, files: seq<Entry>)
    requires HoldsExactly(after, before, files)
    ensures HoldsWithout(after, before, files, {})
  {
    assert after == after - {};
    hide HoldsExactly;
  }

  /** What a transfer that broke off k bytes into file number `sent`, with n bytes of an ERROR after it,
      has left: exactly the files before it, or also that one, whole; in no case a part of it. If not
      even its META is complete, an older file whose name the ERROR has completed may be gone. */
  ghost predicate LeavesWhole(o: Outcome, disk: Disk, files: seq<Entry>, sent: nat, k: nat, n: nat)
    requires sent < |files|
  {
    var name := NameOf(files[sent]);
    && o.code == 1
    && if k < META_SIZE then
         o.done == sent && HoldsWithout(o.files, disk.files, files[..sent], Swallowed(disk, name, k, n))
       else if Refuses(disk, name) then
         o.done == sent && HoldsWithout(o.files, disk.files, files[..sent], {})
       else
         || (o.done == sent && HoldsWithout(o.files, disk.files, files[..sent], {name}))
         || (o.done == sent + 1 && n > 0 && Takeable(files[..sent + 1], disk) &&
             HoldsWithout(o.files, disk.files, files[..sent + 1], {}))
  }

  /** A transfer of this listing comes to d after ds, all of which the directory takes. */
  ghost predicate BreaksAt(files: seq<Entry>, ds: seq<Delivery>, d: Delivery, disk: Disk) {
    && IsTransferOf(ds + [d], files) && Named(files)
    && Distributable(files[..|ds|], disk) && Sendable(files[|ds|])
  }

  lemma BreakFacts(files: seq<Entry>, ds: seq<Delivery>, d: Delivery, disk: Disk)
    requires BreaksAt(files, ds, d, disk)
    ensures |ds| < |files| && d.meta.name == NameOf(files[|ds|]) && IsIntact(Crc32.Checksum, d)
    ensures WellFormed(d) && NoZero(NameOf(files[|ds|]))
    ensures Accepts(disk, ds) && Intact(Crc32.Checksum, ds) == |ds|
    ensures HoldsExactly(InstallAll(Crc32.Checksum, disk.files, ds), disk.files, files[..|ds|])
    ensures IsTransferOf(ds, files) && Volume(ds) == TotalBytes(files[..|ds|])
    ensures |Concat(d.chunks)| == |files[|ds|].content|
  {
    hide Crc32.Checksum, IsDeliveryOf, HoldsExactly, InstallAll, NameOf, Accepts, Distributable, Sendable;
    LastIsNamed(files, ds, d);
    TransferAccepted(files, ds, disk);
    assert ds[..|ds|] == ds;
    Installed(files, ds, disk, |ds|);
    DeliveryIsWellFormed(d, files[|ds|], |ds| + 1, |files|);
  }

  lemma {:induction false} TotalSnoc(files: seq<Entry>, e: Entry)
    ensures TotalBytes(files + [e]) == TotalBytes(files) + |e.content|
  {
    if files == [] {
      assert files + [e] == [e];
    } else {
      assert (files + [e])[1..] == files[1..] + [e];
      TotalSnoc(files[1..], e);
    }
  }

  /** If the directory takes the next file too, it can hold it whole. */
  lemma NextFits(files: seq<Entry>, ds: seq<Delivery>, d: Delivery, disk: Disk)
    requires BreaksAt(files, ds, d, disk) && |ds| < |files| && !Refuses(disk, NameOf(files[|ds|]))
    requires TotalBytes(files[..|ds|]) + |files[|ds|].content| <= disk.room
    ensures Distributable(files[..|ds| + 1], disk)
    ensures HoldsExactly(Whole(InstallAll(Crc32.Checksum, disk.files, ds), d), disk.files, files[..|ds| + 1])
  {
    hide Crc32.Checksum, IsDeliveryOf, HoldsExactly, InstallAll, Whole, NameOf, Refuses, Sendable, NoZero, TotalBytes;
    var all := ds + [d];
    assert files[..|ds| + 1] == files[..|ds|] + [files[|ds|]] && all[..|ds| + 1] == all;
    TotalSnoc(files[..|ds|], files[|ds|]);
    Installed(files, all, disk, |ds| + 1);
    LastIsNamed(files, ds, d);
    WholeIsInstalled(Crc32.Checksum, disk.files, ds, d);
  }

  /** The server fails in the middle of a file, and still gets n bytes of its ERROR onto the wire. If
      the file's name has no DONE header in it, the client reports the failure and is left with whole
      files only. Without any of the ERROR that is so in any case, and the file in progress is gone. */
  lemma BrokenPull(files: seq<Entry>, ds: seq<Delivery>, d: Delivery, disk: Disk, k: nat, n: nat)
    requires BreaksAt(files, ds, d, disk) && k < |DeliveryBytes(d)| && n <= ERROR_SIZE
    ensures |ds| < |files|
    ensures var message := FailedMessage(NameOf(files[|ds|]));
            var s := DeliveriesBytes(ds) + (DeliveryBytes(d)[..k] + ErrorBytes(message)[..n]);
            n == 0 || HarmlessName(NameOf(files[|ds|])) ==>
              LeavesWhole(Run(Crc32.Checksum, Start(disk), s), disk, files, |ds|, k, n)
  {
    hide *;
    BreakFacts(files, ds, d, disk);
    var sum, name := Crc32.Checksum, NameOf(files[|ds|]);
    if n == 0 {
      EmptyIsHarmless();
      BrokenTransfer(sum, disk, ds, d, k, [], n);
      assert ErrorBytes([])[..n] == ErrorBytes(FailedMessage(name))[..n];
      AftermathLeavesWhole(files, ds, d, disk, k, n);
    } else if HarmlessName(name) {
      HarmlessNameExact(name);
      BrokenTransfer(sum, disk, ds, d, k, FailedMessage(name), n);
      AftermathLeavesWhole(files, ds, d, disk, k, n);
    }
  }

  lemma AftermathLeavesWhole(files: seq<Entry>, ds: seq<Delivery>, d: Delivery, disk: Disk, k: nat, n: nat)
    requires BreaksAt(files, ds, d, disk) && Accepts(disk, ds) && |ds| < |files|
    ensures var after := After(Crc32.Checksum, disk, ds);
            LeavesWhole(Aftermath(Crc32.Checksum, after, Intact(Crc32.Checksum, ds), d, k, n), disk, files, |ds|, k, n)
  {
    hide Crc32.Checksum, IsDeliveryOf, HoldsExactly, HoldsWithout, InstallAll, Whole, NameOf, IsSafeFilename, Sendable;
    hide EndSwallowed, SwallowedName, DeliveryBytes, IsTransferOf, Named;
    BreakFacts(files, ds, d, disk);
    var prior, name := InstallAll(Crc32.Checksum, disk.files, ds), NameOf(files[|ds|]);
    var after := After(Crc32.Checksum, disk, ds);
    if k < META_SIZE {
      HoldsBut(prior, disk.files, files[..|ds|], Swallowed(disk, name, k, n));
    } else if Refuses(disk, name) {
      HoldsAll(prior, disk.files, files[..|ds|]);
    } else if KeptWhole(Crc32.Checksum, after, d, k, n) {
      NextFits(files, ds, d, disk);
      HoldsAll(Whole(prior, d), disk.files, files[..|ds| + 1]);
      SwallowsSome(Crc32.Checksum, after, d, k, n);
    } else {
      HoldsBut(prior, disk.files, files[..|ds|], {name});
    }
  }

  lemma HoldsBut(all: Dir, before: Dir, files: seq<Entry>, gone: set<Text>)
    requires HoldsExactly(all, before, files)
    ensures HoldsWithout(all - gone, before, files, gone)
  {
    hide HoldsExactly;
  }

  lemma SwallowsSome(sum: Sum, disk: Disk, d: Delivery, k: nat, n: nat)
    requires KeptWhole(sum, disk, d, k, n)
    ensures n > 0
  {
  }

  lemma LastIsNamed(files: seq<Entry>, ds: seq<Delivery>, d: Delivery)
    requires IsTransferOf(ds + [d], files)
    ensures |ds| < |files| && d.meta.name == NameOf(files[|ds|]) && IsIntact(Crc32.Checksum, d)
  {
    assert (ds + [d])[|ds|] == d;
    hide Crc32.Checksum, IsCut;
  }

  lemma {:induction false} WholeIsInstalled(sum: Sum, files: Dir, ds: seq<Delivery>, d: Delivery)
    requires IsIntact(sum, d)
    ensures Whole(InstallAll(sum, files, ds), d) == InstallAll(sum, files, ds + [d])
    decreases |ds|
  {
    if ds == [] {
      assert ds + [d] == [d] && [d][1..] == [];
    } else {
      assert (ds + [d])[1..] == ds[1..] + [d];
      WholeIsInstalled(sum, Install(sum, files, ds[0]), ds[1..], d);
    }
    hide Concat;
  }

  // ------------------------------------------------------------------------- both ends at once

  /** The last packet, DONE or ERROR, comes at a file boundary, whole or in part. */
  lemma TailPull(ds: seq<Delivery>, disk: Disk, tail: Tail, n: nat)
    requires Accepts(disk, ds) && n <= |TailBytes(tail)|
    ensures Run(Crc32.Checksum, Start(disk), DeliveriesBytes(ds) + TailBytes(tail)[..n]) ==
            Outcome(if tail.AllSent? && n >= COMMON_SIZE then 0 else 1,
                    InstallAll(Crc32.Checksum, disk.files, ds), Intact(Crc32.Checksum, ds))
  {
    hide Run, OnPacket, Crc32.Checksum, DeliveriesBytes, TailBytes, Accepts, InstallAll, Intact;
    var rx := RunDeliveries(Crc32.Checksum, Start(disk), ds, TailBytes(tail)[..n]);
    TailTurn(Crc32.Checksum, rx, tail, n);
    RunStops(Crc32.Checksum, rx, TailBytes(tail)[..n],
             Outcome(if tail.AllSent? && n >= COMMON_SIZE then 0 else 1, rx.disk.files, rx.done));
  }

  /** What a pull that got as far as DONE leaves. */
  lemma CompletePull(files: seq<Entry>, ds: seq<Delivery>, disk: Disk, total: byte, n: nat)
    requires IsTransferOf(ds, files) && |ds| == |files| && Distributable(files, disk)
    requires n <= |TailBytes(AllSent(total))|
    ensures var o := Run(Crc32.Checksum, Start(disk), DeliveriesBytes(ds) + TailBytes(AllSent(total))[..n]);
            && (o.code == 0 <==> n >= COMMON_SIZE) && o.code <= 1
            && o.done == |files| && HoldsExactly(o.files, disk.files, files)
  {
    hide Run, Crc32.Checksum, DeliveriesBytes, TailBytes, HoldsExactly, InstallAll, Intact, Accepts;
    assert files[..|ds|] == files && ds[..|ds|] == ds;
    TransferAccepted(files, ds, disk);
    Installed(files, ds, disk, |ds|);
    TailPull(ds, disk, AllSent(total), n);
  }

  lemma {:induction false} TotalOfPrefix(files: seq<Entry>, n: nat)
    requires n <= |files|
    ensures TotalBytes(files[..n]) <= TotalBytes(files)
  {
    if n > 0 {
      assert files[..n][1..] == files[1..][..n - 1];
      TotalOfPrefix(files[1..], n - 1);
    }
  }

  lemma PrefixTakeable(files: seq<Entry>, disk: Disk, n: nat)
    requires Takeable(files, disk) && n <= |files|
    ensures Takeable(files[..n], disk)
  {
    TotalOfPrefix(files, n);
    hide IsSafeFilename, TotalBytes, NameOf, NoZero;
  }

  /** How many files of a listing the client takes: all before the first of which it refuses the name or
      that there is no room for. */
  function Taken(files: seq<Entry>, disk: Disk): (n: nat)
    ensures n <= |files| && Takeable(files[..n], disk)
    ensures n < |files| ==> !Takeable(files[..n + 1], disk)
    decreases |files|
  {
    if Takeable(files, disk) then
      assert files[..|files|] == files;
      |files|
    else
      var fewer := files[..|files| - 1];
      var n := Taken(fewer, disk);
      assert fewer[..n] == files[..n];
      assert if n < |fewer| then fewer[..n + 1] == files[..n + 1] else files[..n + 1] == files;
      n
  }

  lemma TakenCovers(files: seq<Entry>, disk: Disk, n: nat)
    requires n <= Taken(files, disk)
    ensures Takeable(files[..n], disk)
  {
    var t := Taken(files, disk);
    PrefixTakeable(files[..t], disk, n);
    assert files[..t][..n] == files[..n];
    hide Takeable;
  }

  lemma NamedPrefix(files: seq<Entry>, n: nat)
    requires Named(files) && n <= |files|
    ensures Named(files[..n])
  {
  }

  /** The first file not taken: a name that is refused, or no room. */
  lemma FirstRefused(files: seq<Entry>, disk: Disk)
    requires Named(files) && Taken(files, disk) < |files|
    ensures var t := Taken(files, disk);
            Refuses(disk, NameOf(files[t])) || TotalBytes(files[..t]) + |files[t].content| > disk.room
  {
    var t := Taken(files, disk);
    hide Taken, Refuses, Named, NameOf, TotalBytes;
    NamedPrefix(files, t + 1);
    assert files[..t + 1] == files[..t] + [files[t]];
    TotalSnoc(files[..t], files[t]);
  }

  lemma {:induction false} DeliveriesAt(ds: seq<Delivery>, j: nat)
    requires j < |ds|
    ensures DeliveriesBytes(ds) == DeliveriesBytes(ds[..j]) + (DeliveryBytes(ds[j]) + DeliveriesBytes(ds[j + 1..]))
  {
    hide DeliveryBytes;
    if j == 0 {
      assert DeliveriesBytes(ds[..0]) == [];
    } else {
      DeliveriesAt(ds[1..], j - 1);
      assert ds[1..][..j - 1] == ds[..j][1..];
      Assoc(DeliveryBytes(ds[0]), DeliveriesBytes(ds[..j][1..]), DeliveryBytes(ds[j]) + DeliveriesBytes(ds[j + 1..]));
    }
  }

  /** The client came to a file it would not or could not store: it reports failure, whatever else the
      server sends, and has exactly the files before; one that it had begun is gone. */
  ghost predicate StoppedByClient(o: Outcome, disk: Disk, files: seq<Entry>)
    requires Taken(files, disk) < |files|
  {
    var taken := Taken(files, disk);
    var name := NameOf(files[taken]);
    && o.code == 1 && o.done == taken
    && HoldsWithout(o.files, disk.files, files[..taken], if Refuses(disk, name) then {} else {name})
  }

  lemma BreaksAtNext(files: seq<Entry>, ds: seq<Delivery>, disk: Disk, t: nat)
    requires IsTransferOf(ds, files) && Named(files) && t < |ds| && Takeable(files[..t], disk)
    requires forall j :: 0 <= j < |ds| ==> Sendable(files[j])
    ensures BreaksAt(files, ds[..t], ds[t], disk)
  {
    hide IsDeliveryOf, Takeable, Named, Sendable;
    assert ds[..t] + [ds[t]] == ds[..t + 1];
    forall e | e in files[..t] ensures Sendable(e) {
      var j :| 0 <= j < t && files[j] == e;
    }
  }

  lemma ClientStops(files: seq<Entry>, ds: seq<Delivery>, disk: Disk, rest: seq<byte>)
    requires IsTransferOf(ds, files) && Named(files) && Taken(files, disk) < |ds|
    requires forall j :: 0 <= j < |ds| ==> Sendable(files[j])
    ensures StoppedByClient(Run(Crc32.Checksum, Start(disk), DeliveriesBytes(ds) + rest), disk, files)
  {
    hide Run, OnPacket, Crc32.Checksum, DeliveriesBytes, DeliveryBytes, HoldsExactly, HoldsWithout, IsDeliveryOf;
    hide IsSafeFilename, NameOf, InstallAll, Taken, Takeable, Named, Sendable, WellFormed;
    var t, sum := Taken(files, disk), Crc32.Checksum;
    var before, d, name := ds[..t], ds[t], NameOf(files[t]);
    var after := DeliveriesBytes(ds[t + 1..]) + rest;
    DeliveriesAt(ds, t);
    assert DeliveriesBytes(ds) + rest == DeliveriesBytes(before) + (DeliveryBytes(d) + after);
    BreaksAtNext(files, ds, disk, t);
    BreakFacts(files, before, d, disk);
    FirstRefused(files, disk);
    var rx := RunDeliveries(sum, Start(disk), before, DeliveryBytes(d) + after);
    RefusedDelivery(sum, rx, d, after);
    if Refuses(disk, name) {
      HoldsAll(InstallAll(sum, disk.files, before), disk.files, files[..t]);
    } else {
      HoldsBut(InstallAll(sum, disk.files, before), disk.files, files[..t], {name});
    }
  }

  /** The server found a file it could not open or that was too large: ERROR at a file boundary. */
  lemma RefusedPull(files: seq<Entry>, ds: seq<Delivery>, disk: Disk, message: Text, n: nat)
    requires IsTransferOf(ds, files) && Distributable(files[..|ds|], disk) && n <= ERROR_SIZE
    ensures var o := Run(Crc32.Checksum, Start(disk), DeliveriesBytes(ds) + ErrorBytes(message)[..n]);
            o.code == 1 && o.done == |ds| && HoldsExactly(o.files, disk.files, files[..|ds|])
  {
    hide Run, Crc32.Checksum, DeliveriesBytes, TailBytes, HoldsExactly, InstallAll, Intact, Accepts;
    assert ds[..|ds|] == ds;
    TransferAccepted(files, ds, disk);
    Installed(files, ds, disk, |ds|);
    assert ErrorBytes(message) == TailBytes(Failed(message));
    TailPull(ds, disk, Failed(message), n);
  }

  lemma NothingToSend(disk: Disk, message: Text, n: nat)
    requires n <= ERROR_SIZE
    ensures Run(Crc32.Checksum, Start(disk), DeliveriesBytes([]) + ErrorBytes(message)[..n]) ==
            Outcome(1, disk.files, 0)
  {
    hide Run, Crc32.Checksum;
    TailPull([], disk, Failed(message), n);
  }

  /** The delivery a server stopped in, as the next one of the transfer. */
  lemma StoppedIn(files: seq<Entry>, ds: seq<Delivery>, broken: seq<byte>, failed: bool)
    returns (d: Delivery, k: nat)
    requires IsTransferOf(ds, files) && StoppedAt(files, ds, broken, failed)
    ensures |ds| < |files| && IsTransferOf(ds + [d], files)
    ensures k < |DeliveryBytes(d)| && broken == DeliveryBytes(d)[..k] && |broken| == k
    ensures if Sendable(files[|ds|]) then failed else broken == []
    ensures forall j :: 0 <= j < |ds| ==> Sendable(files[j])
  {
    hide IsDeliveryOf, DeliveryBytes, Sendable;
    d, k :| IsDeliveryOf(d, files[|ds|], |ds| + 1, |files|) && 0 <= k < |DeliveryBytes(d)| &&
            broken == DeliveryBytes(d)[..k];
  }

  lemma PrefixDistributable(files: seq<Entry>, disk: Disk, n: nat)
    requires n <= Taken(files, disk) && forall j :: 0 <= j < n ==> Sendable(files[j])
    ensures Distributable(files[..n], disk)
  {
    TakenCovers(files, disk, n);
    hide Takeable, Taken, Sendable;
  }

  /** What a pull of this listing comes to. `sent` files went out whole, `progress` bytes of the next
      one if a send failed in it, and `told` bytes of the packet that ends the transfer. */
  ghost predicate PullOutcome(o: Outcome, disk: Disk, files: seq<Entry>, sent: nat, progress: nat, told: nat)
    requires sent <= |files|
  {
    if files == [] then o == Outcome(1, disk.files, 0)
    else if Taken(files, disk) < sent then StoppedByClient(o, disk, files)
    else if sent == |files| then
      && (o.code == 0 <==> told >= COMMON_SIZE) && o.code <= 1
      && o.done == |files| && HoldsExactly(o.files, disk.files, files)
    else if !Sendable(files[sent]) then
      o.code == 1 && o.done == sent && HoldsExactly(o.files, disk.files, files[..sent])
    else
      told == 0 || HarmlessName(NameOf(files[sent])) ==> LeavesWhole(o, disk, files, sent, progress, told)
  }

  lemma StoppedPull(files: seq<Entry>, ds: seq<Delivery>, broken: seq<byte>, failed: bool, disk: Disk, n: nat)
    requires IsTransferOf(ds, files) && StoppedAt(files, ds, broken, failed) && Named(files) && n <= ERROR_SIZE
    ensures |ds| < |files| && (!failed ==> !Sendable(files[|ds|]))
    ensures var e := ErrorBytes(FailedMessage(NameOf(files[|ds|])));
            var o := Run(Crc32.Checksum, Start(disk), DeliveriesBytes(ds) + (broken + e[..n]));
            PullOutcome(o, disk, files, |ds|, |broken|, n)
  {
    hide Run, OnPacket, Crc32.Checksum, DeliveriesBytes, DeliveryBytes, ErrorBytes, HoldsExactly, IsDeliveryOf;
    hide StoppedAt, Distributable, LeavesWhole, HarmlessName, IsTransferOf, Named, Sendable, Taken, StoppedByClient;
    hide FailedMessage, NameOf;
    var d, k := StoppedIn(files, ds, broken, failed);
    var e := ErrorBytes(FailedMessage(NameOf(files[|ds|])));
    if Taken(files, disk) < |ds| {
      ClientStops(files, ds, disk, broken + e[..n]);
    } else {
      PrefixDistributable(files, disk, |ds|);
      if Sendable(files[|ds|]) {
        BrokenPull(files, ds, d, disk, k, n);
      } else {
        RefusedPull(files, ds, disk, FailedMessage(NameOf(files[|ds|])), n);
        assert broken + e[..n] == e[..n];
      }
    }
  }

  lemma WholePull(files: seq<Entry>, ds: seq<Delivery>, disk: Disk, total: byte, n: nat)
    requires IsTransferOf(ds, files) && |ds| == |files| && Named(files) && files != []
    requires (forall e | e in files :: Sendable(e)) && n <= |TailBytes(AllSent(total))|
    ensures PullOutcome(Run(Crc32.Checksum, Start(disk), DeliveriesBytes(ds) + TailBytes(AllSent(total))[..n]),
                        disk, files, |ds|, 0, n)
  {
    hide Run, OnPacket, Crc32.Checksum, DeliveriesBytes, TailBytes, HoldsExactly, Distributable, Named, Sendable, Taken;
    hide StoppedByClient, IsTransferOf;
    if Taken(files, disk) < |ds| {
      ClientStops(files, ds, disk, TailBytes(AllSent(total))[..n]);
    } else {
      PrefixDistributable(files, disk, |files|);
      assert files[..|files|] == files;
      CompletePull(files, ds, disk, total, n);
    }
  }

  /** The client's side of all that HandleFilePull can do. */
  lemma WireOutcome(files: seq<Entry>, ds: seq<Delivery>, broken: seq<byte>, tail: Tail, told: nat, failed: bool,
                    disk: Disk)
    requires IsTransferOf(ds, files) && Named(files) && told <= |TailBytes(tail)|
    requires files == [] ==> ds == [] && broken == [] && tail.Failed?
    requires files != [] && tail.AllSent? ==>
               |ds| == |files| && broken == [] && forall e | e in files :: Sendable(e)
    requires files != [] && tail.Failed? ==>
               StoppedAt(files, ds, broken, failed) && tail == Failed(FailedMessage(NameOf(files[|ds|])))
    ensures |ds| <= |files| && (tail.Failed? && files != [] ==> |ds| < |files|)
    ensures files != [] && tail.Failed? && !failed ==> !Sendable(files[|ds|])
    ensures PullOutcome(Run(Crc32.Checksum, Start(disk), DeliveriesBytes(ds) + (broken + TailBytes(tail)[..told])),
                        disk, files, |ds|, |broken|, told)
  {
    hide Run, OnPacket, Crc32.Checksum, DeliveriesBytes, DeliveryBytes, HoldsExactly, IsDeliveryOf, Sendable;
    hide Distributable, LeavesWhole, HarmlessName, StoppedAt, Named, Taken, StoppedByClient, FailedMessage, NameOf;
    if tail.Failed? {
      assert TailBytes(tail) == ErrorBytes(tail.message);
    }
    hide TailBytes;
    if files == [] {
      NothingToSend(disk, tail.message, told);
      assert broken + TailBytes(tail)[..told] == TailBytes(tail)[..told];
    } else if tail.AllSent? {
      hide PullOutcome;
      WholePull(files, ds, disk, tail.total, told);
      assert broken + TailBytes(tail)[..told] == TailBytes(tail)[..told];
    } else {
      hide PullOutcome;
      StoppedPull(files, ds, broken, failed, disk, told);
    }
  }

  /** One pull, server and client run against each other: however either direction is fragmented or
      interrupted, whatever names and sizes the files have and whatever the client's directory takes,
      whether or not a send fails, and whatever still gets out after it. */
  method Pull(dirOpens: bool, dir: seq<Entry>, noDir: Text, noFiles: Text, folder: Folder, interrupts: nat)
    returns (rc: int, filesDone: nat, ghost failed: bool, ghost sent: nat, ghost progress: nat, ghost told: nat)
    requires Named(Listing(dir, MAX_DIST_FILES))
    modifies folder
    ensures var files := if dirOpens then Listing(dir, MAX_DIST_FILES) else [];
            var disk := old(folder.AsDisk());
            && (dirOpens ==> IsListingOf(files, dir)) && sent <= |files|
            && PullOutcome(Outcome(rc, folder.files, filesDone), disk, files, sent, progress, told)
            && (!failed && files != [] && (forall e | e in files :: Sendable(e)) ==>
                  && sent == |files| && told >= COMMON_SIZE
                  && (rc == 0 <==> Taken(files, disk) == |files|))
  {
    hide Run, OnPacket, Crc32.Checksum, DeliveriesBytes, DeliveryBytes, HoldsExactly, IsDeliveryOf, Sendable;
    hide LeavesWhole, HarmlessName, StoppedAt, Named, TailBytes, Taken, IsListingOf;
    ghost var files := if dirOpens then Listing(dir, MAX_DIST_FILES) else [];
    ghost var disk := folder.AsDisk();
    var conn := new Connection();
    ghost var ds, broken, tail;
    ds, broken, tail, told := HandleFilePull(conn, dirOpens, dir, noDir, noFiles);
    failed, sent, progress := conn.failed, |ds|, |broken|;
    var sock := new Socket(conn.wire, interrupts);
    NothingIsNamed();
    WireOutcome(files, ds, broken, tail, told, failed, disk);
    assert conn.wire == DeliveriesBytes(ds) + (broken + TailBytes(tail)[..told]);
    rc, filesDone := DoPull(sock, folder);
  }

  lemma NothingIsNamed()
    ensures Named([])
  {
  }
}
