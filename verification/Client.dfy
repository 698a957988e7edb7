/** client/client.c: the receive loop of do_pull_mode over a socket that hands out bytes in
    pieces of any size and a directory that may refuse or run out of room. */
module Client {
  import opened Bytes
  import opened Wire
  import opened Options
  import opened Receiver
  import Crc32

  /** A connected socket. `incoming` is everything that will still arrive before the peer closes
      or the connection fails; `interrupts` is how often recv will still be interrupted. */
  class Socket {
    var incoming: seq<byte>
    var interrupts: nat

    constructor (incoming: seq<byte>, interrupts: nat)
      ensures this.incoming == incoming && this.interrupts == interrupts
    {
      this.incoming := incoming;
      this.interrupts := interrupts;
    }

    /** recv: an interrupt, the end, or some first bytes of what is to come. */
    method Recv(n: nat) returns (r: int, interrupted: bool, data: seq<byte>)
      requires n > 0
      modifies this
      ensures interrupted ==> r < 0 && data == [] && incoming == old(incoming) && interrupts < old(interrupts)
      ensures !interrupted ==> interrupts == old(interrupts)
      ensures !interrupted && r <= 0 ==> old(incoming) == [] && incoming == []
      ensures r > 0 ==> r <= n && |data| == r && old(incoming) == data + incoming
    {
      interrupted, data := *, [];
      if interrupts == 0 {
        interrupted := false;
      }
      if interrupted {
        interrupts := interrupts - 1;
        r := -1;
      } else if incoming == [] {
        r := *;
        if r > 0 {
          r := 0;
        }
      } else {
        r :| 1 <= r <= n && r <= |incoming|;
        data, incoming := incoming[..r], incoming[r..];
      }
    }

    /** _recv_all: exactly n bytes, however they come, or failure once nothing more comes. */
    method RecvAll(n: nat) returns (ok: bool, data: seq<byte>)
      modifies this
      ensures ok <==> n <= |old(incoming)|
      ensures ok ==> data == old(incoming)[..n] && incoming == old(incoming)[n..]
    {
      data := [];
      while |data| < n
        invariant |data| <= n && old(incoming) == data + incoming
        decreases n - |data|, interrupts
      {
        var r, interrupted, piece := Recv(n - |data|);
        if interrupted {
          continue;
        }
        if r <= 0 {
          return false, data;
        }
        data := data + piece;
      }
      ok := true;
    }
  }

  /** The directory the client was started in. `room` is how many bytes write will still accept. */
  class Folder {
    var files: Dir
    var room: nat
    var interrupts: nat
    const blocked: set<Text>

    constructor (files: Dir, blocked: set<Text>, room: nat, interrupts: nat)
      ensures this.files == files && this.blocked == blocked && this.room == room && this.interrupts == interrupts
    {
      this.files := files;
      this.blocked := blocked;
      this.room := room;
      this.interrupts := interrupts;
    }

    function AsDisk(): Disk
      reads this
    {
      Disk(files, blocked, room)
    }

    method OpenTruncated(name: Text) returns (ok: bool)
      modifies this`files
      ensures ok <==> name !in blocked
      ensures files == if ok then Create(old(files), name) else old(files)
    {
      ok := name !in blocked;
      if ok {
        files := files[name := File([], name in files && files[name].exec)];
      }
    }

    /** write: an interrupt, a refusal when the room is used up, or some first bytes of data. */
    method Write(name: Text, data: seq<byte>) returns (w: int, interrupted: bool)
      requires data != [] && name in files
      modifies this`files, this`room, this`interrupts
      ensures interrupted ==> w < 0 && files == old(files) && room == old(room) && interrupts < old(interrupts)
      ensures !interrupted ==> interrupts == old(interrupts)
      ensures !interrupted && w <= 0 ==> old(room) == 0 && files == old(files) && room == 0
      ensures w > 0 ==> && w <= |data| && w <= old(room) && room == old(room) - w
                        && files == Append(old(files), name, data[..w])
    {
      interrupted := *;
      if interrupts == 0 {
        interrupted := false;
      }
      if interrupted {
        interrupts := interrupts - 1;
        w := -1;
      } else if room == 0 {
        w := -1;
      } else {
        w :| 1 <= w <= |data| && w <= room;
        room := room - w;
        files := files[name := files[name].(bytes := files[name].bytes + data[..w])];
      }
    }

    method Remove(name: Text)
      modifies this`files
      ensures files == Unlink(old(files), name)
    {
      files := files - {name};
    }

    method ChmodExec(name: Text)
      modifies this`files
      ensures files == MakeExec(old(files), name)
    {
      if name in files {
        files := files[name := files[name].(exec := true)];
      }
    }

    /** The write loop of the chunk branch. */
    method WriteAll(name: Text, data: seq<byte>) returns (ok: bool)
      requires name in files
      modifies this`files, this`room, this`interrupts
      ensures ok <==> |data| <= old(room)
      ensures ok ==> files == Append(old(files), name, data) && room == old(room) - |data|
      ensures !ok ==> Unlink(files, name) == Unlink(old(files), name)
    {
      var written := 0;
      AppendTwice(files, name, [], []);
      while written < |data|
        invariant written <= |data| && written <= old(room) && room == old(room) - written
        invariant name in files && files == Append(old(files), name, data[..written])
        decreases |data| - written, interrupts
      {
        var w, interrupted := Write(name, data[written..]);
        if interrupted {
          continue;
        }
        if w <= 0 {
          assert Unlink(files, name) == Unlink(old(files), name);
          return false;
        }
        AppendTwice(old(files), name, data[..written], data[written..][..w]);
        assert data[..written] + data[written..][..w] == data[..written + w];
        written := written + w;
      }
      assert data[..written] == data;
      ok := true;
    }
  }

  /** The RES_FILE_META branch; `fd` is the descriptor variable afterwards. */
  method ReceiveMeta(sock: Socket, folder: Folder, fd: Option<Text>, headerSize: nat, ghost rx: Rx, ghost s: seq<byte>)
    returns (ok: bool, fd': Option<Text>, exec: bool)
    requires |s| >= COMMON_SIZE && sock.incoming == s[COMMON_SIZE..]
    requires rx.disk == folder.AsDisk() && rx.out == fd
    modifies sock, folder
    ensures ok ==> && fd'.Some?
                   && OnMeta(rx, headerSize, s) == Go(Rx(folder.AsDisk(), true, fd', exec, rx.done), sock.incoming)
    ensures !ok ==> folder.files == old(folder.files) && OnMeta(rx, headerSize, s) == Fail(rx.(out := fd'))
  {
    ok, fd', exec := false, fd, false;
    if headerSize != META_SIZE {
      return;
    }
    var got, body := sock.RecvAll(META_SIZE - COMMON_SIZE);
    if !got {
      return;
    }
    assert body == s[COMMON_SIZE..META_SIZE] && sock.incoming == s[META_SIZE..];
    var meta := GetMeta(body);
    if !IsSafeFilename(meta.name) {
      return;
    }
    var created := folder.OpenTruncated(meta.name);
    if !created {
      fd' := None;
      return;
    }
    ok, fd', exec := true, Some(meta.name), meta.exec != 0;
  }

  /** The RES_FILE_CHUNK branch. The accumulator keeps up with what has been written. */
  method ReceiveChunk(sock: Socket, folder: Folder, waitChunk: bool, fd: Option<Text>, crc: bv32, headerSize: nat,
                      ghost rx: Rx, ghost s: seq<byte>)
    returns (ok: bool, crc': bv32)
    requires |s| >= COMMON_SIZE && sock.incoming == s[COMMON_SIZE..]
    requires rx.disk == folder.AsDisk() && rx.out == fd && rx.waitChunk == waitChunk && Consistent(rx)
    requires fd.Some? ==> crc == Crc32.Update(Crc32.INIT, folder.files[fd.value].bytes)
    modifies sock, folder
    ensures ok ==> OnChunk(rx, headerSize, s) == Go(rx.(disk := folder.AsDisk()), sock.incoming)
    ensures ok ==> fd.Some? && fd.value in folder.files &&
                   crc' == Crc32.Update(Crc32.INIT, folder.files[fd.value].bytes)
    ensures !ok ==> OnChunk(rx, headerSize, s) == Fail(rx)
    ensures !ok && fd.Some? ==> Unlink(folder.files, fd.value) == Unlink(old(folder.files), fd.value)
    ensures !ok && fd.None? ==> folder.files == old(folder.files)
  {
    hide Crc32.Update;
    ok, crc' := false, crc;
    if !waitChunk || fd.None? || headerSize != CHUNK_SIZE {
      return;
    }
    var got, body := sock.RecvAll(CHUNK_SIZE - COMMON_SIZE);
    if !got {
      return;
    }
    assert body == s[COMMON_SIZE..CHUNK_SIZE] && sock.incoming == s[CHUNK_SIZE..];
    var size := GetChunkSize(body);
    if size == 0 || size > MAX_CHUNK {
      return;
    }
    var whole, payload := sock.RecvAll(size);
    if !whole {
      return;
    }
    assert payload == s[CHUNK_SIZE..CHUNK_SIZE + size] && sock.incoming == s[CHUNK_SIZE + size..];
    crc' := Crc32.Accumulate(crc, payload);
    Crc32.UpdateConcat(Crc32.INIT, folder.files[fd.value].bytes, payload);
    ok := folder.WriteAll(fd.value, payload);
  }

  /** The RES_FILE_END branch. */
  method ReceiveEnd(sock: Socket, folder: Folder, fd: Option<Text>, exec: bool, crc: bv32, headerSize: nat,
                    ghost rx: Rx, ghost s: seq<byte>)
    returns (ok: bool, good: bool)
    requires |s| >= COMMON_SIZE && sock.incoming == s[COMMON_SIZE..]
    requires rx.disk == folder.AsDisk() && rx.out == fd && rx.outExec == exec && Consistent(rx)
    requires fd.Some? ==> crc == Crc32.Update(Crc32.INIT, folder.files[fd.value].bytes)
    modifies sock, folder
    ensures ok ==> OnEnd(Crc32.Checksum, rx, headerSize, s) ==
                   Go(Rx(folder.AsDisk(), false, None, exec, if good then rx.done + 1 else rx.done), sock.incoming)
    ensures !ok ==> OnEnd(Crc32.Checksum, rx, headerSize, s) == Fail(rx) && folder.files == old(folder.files)
  {
    hide Crc32.Update;
    ok, good := false, false;
    if fd.None? || headerSize != END_SIZE {
      return;
    }
    var got, body := sock.RecvAll(END_SIZE - COMMON_SIZE);
    if !got {
      return;
    }
    assert body == s[COMMON_SIZE..END_SIZE] && sock.incoming == s[END_SIZE..];
    var expected, actual := GetEndChecksum(body), !crc;
    assert actual == Crc32.Checksum(folder.files[fd.value].bytes);
    ok := true;
    if expected != actual {
      folder.Remove(fd.value);
    } else {
      if exec {
        folder.ChmodExec(fd.value);
      }
      good := true;
    }
  }

  /** do_pull_mode after its request went out. Fragmentation, interrupts and short writes leave
      no trace: the result and the directory are those of the machine on the whole byte string. */
  method DoPull(sock: Socket, folder: Folder) returns (rc: int, filesDone: nat)
    modifies sock, folder
    ensures Outcome(rc, folder.files, filesDone) ==
            Run(Crc32.Checksum, Start(old(folder.AsDisk())), old(sock.incoming))
  {
    hide Crc32.Update, Crc32.Checksum;
    var waitChunk, fd, exec, crc := false, None, false, Crc32.INIT;
    filesDone := 0;
    ghost var rx := Start(folder.AsDisk());
    ghost var goal := Run(Crc32.Checksum, rx, sock.incoming);
    while true
      invariant rx == Rx(folder.AsDisk(), waitChunk, fd, exec, filesDone) && Consistent(rx)
      invariant fd.Some? ==> crc == Crc32.Update(Crc32.INIT, folder.files[fd.value].bytes)
      invariant goal == Run(Crc32.Checksum, rx, sock.incoming)
      decreases |sock.incoming|
    {
      ghost var s := sock.incoming;
      var ok, head := sock.RecvAll(COMMON_SIZE);
      if !ok {
        break;
      }
      var common := GetCommon(head);
      if common.magic != MAGIC {
        break;
      }
      if common.pktType == RES_FILE_META {
        var created, fd', exec' := ReceiveMeta(sock, folder, fd, common.headerSize, rx, s);
        fd := fd';
        if !created {
          break;
        }
        exec, crc, waitChunk := exec', Crc32.INIT, true;
        Crc32.UpdateNothing(Crc32.INIT);
      } else if common.pktType == RES_FILE_CHUNK {
        var kept, crc' := ReceiveChunk(sock, folder, waitChunk, fd, crc, common.headerSize, rx, s);
        if !kept {
          break;
        }
        crc := crc';
      } else if common.pktType == RES_FILE_END {
        var closed, good := ReceiveEnd(sock, folder, fd, exec, crc, common.headerSize, rx, s);
        if !closed {
          break;
        }
        fd, waitChunk := None, false;
        if good {
          filesDone := filesDone + 1;
        }
      } else if common.pktType == RES_FILE_DONE {
        if common.headerSize < COMMON_SIZE {
          break;
        }
        if 0 < common.headerSize - COMMON_SIZE <= 64 {
          var _, _ := sock.RecvAll(common.headerSize - COMMON_SIZE);
        }
        return 0, filesDone;
      } else {
        break;
      }
      OnPacketConsistent(Crc32.Checksum, rx, s);
      rx := Rx(folder.AsDisk(), waitChunk, fd, exec, filesDone);
    }
    if fd.Some? {
      folder.Remove(fd.value);
    }
    rc := 1;
  }
}
