/** client/client.c, send_source, and server/server.c, the beginning of handle_client: sending a
    submission and receiving it, with sends and receives that move any number of bytes. */
module Submitting {
  import opened Bytes
  import opened Options
  import opened Wire
  import opened Submission
  import Crc32
  import Client
  import PullServer

  /** The client's end of a connection; `wire` is all that was accepted for sending. */
  class Uplink {
    var wire: seq<byte>
    var interrupts: nat

    constructor (interrupts: nat)
      ensures wire == [] && this.interrupts == interrupts
    {
      wire := [];
      this.interrupts := interrupts;
    }

    /** send: an interrupt, a failure, or some first bytes of the buffer. */
    method Send(data: seq<byte>) returns (n: int, interrupted: bool)
      requires data != []
      modifies this
      ensures n <= |data|
      ensures interrupted ==> n < 0 && interrupts < old(interrupts)
      ensures !interrupted ==> interrupts == old(interrupts)
      ensures wire == if n > 0 then old(wire) + data[..n] else old(wire)
    {
      interrupted, n := *, *;
      if interrupted && interrupts > 0 {
        interrupts := interrupts - 1;
        n := -1;
      } else {
        interrupted := false;
        if n > |data| {
          n := |data|;
        }
        if n > 0 {
          wire := wire + data[..n];
        }
      }
    }

    /** The loops that send the header and the source: everything, or a proper part and failure. */
    method SendAll(data: seq<byte>) returns (ok: bool, ghost sent: nat)
      modifies this
      ensures sent <= |data| && wire == old(wire) + data[..sent]
      ensures ok <==> sent == |data|
    {
      var done := 0;
      assert data[..0] == [];
      while done < |data|
        invariant done <= |data| && wire == old(wire) + data[..done]
        decreases |data| - done, interrupts
      {
        var n, interrupted := Send(data[done..]);
        if interrupted {
          continue;
        }
        if n <= 0 {
          return false, done;
        }
        assert data[..done] + data[done..][..n] == data[..done + n];
        done := done + n;
      }
      ok, sent := true, done;
    }
  }

  /** The file's contents, as far as its size at the time of fstat; nothing if the file is empty,
      over 1 MiB, or shorter by now. */
  method ReadSource(size: nat, file: PullServer.Source) returns (source: Option<seq<byte>>)
    modifies file
    ensures source == if 1 <= size <= 1048576 && size <= |old(file.remaining)| then Some(old(file.remaining)[..size])
                      else None
  {
    if size == 0 || size > MAX_SOURCE {
      return None;
    }
    var data: seq<byte> := [];
    while |data| < size
      invariant |data| <= size && data + file.remaining == old(file.remaining)
      decreases size - |data|
    {
      var piece := file.Read(size - |data|);
      if piece == [] {
        return None;
      }
      data := data + piece;
    }
    return Some(data);
  }

  /** send_source up to the point where the client waits for the result. */
  method SendSource(id: Text, path: Text, size: nat, file: PullServer.Source, up: Uplink)
    returns (ok: bool, ghost sent: nat)
    modifies file, up
    ensures var readable := 1 <= size <= 1048576 && size <= |old(file.remaining)|;
            var all := if readable then SubmitBytes(id, path, old(file.remaining)[..size]) else [];
            && sent <= |all| && up.wire == old(up.wire) + all[..sent]
            && (ok <==> readable && sent == |all|)
  {
    hide PutSubmit, BaseName, Crc32.Checksum;
    var source := ReadSource(size, file);
    if source.None? {
      return false, 0;
    }
    var checksum := Crc32.Crc32Buf(source.value);
    var header := PutSubmit(id, BaseName(path), size, checksum);
    ok, sent := up.SendAll(header);
    if !ok {
      assert (header + source.value)[..sent] == header[..sent];
      return;
    }
    ghost var more;
    ok, more := up.SendAll(source.value);
    assert header[..|header|] == header;
    assert (header + source.value)[..|header| + more] == header + source.value[..more];
    sent := |header| + more;
  }

  // ----------------------------------------------------------------------------------- the server

  /** recv with MSG_WAITALL: n bytes, or fewer at the end or at a signal. */
  method RecvWait(sock: Client.Socket, n: nat) returns (data: seq<byte>)
    modifies sock
    ensures old(sock.incoming) == data + sock.incoming && |data| <= n && sock.interrupts <= old(sock.interrupts)
    ensures old(sock.interrupts) == 0 ==> data == old(sock.incoming)[..Min(n, |old(sock.incoming)|)]
  {
    data := [];
    while |data| < n
      invariant old(sock.incoming) == data + sock.incoming && |data| <= n
      invariant sock.interrupts == old(sock.interrupts)
      decreases n - |data|
    {
      var r, interrupted, piece := sock.Recv(n - |data|);
      if r <= 0 {
        return;
      }
      data := data + piece;
    }
  }

  /** The loop that receives the source in pieces of at most 4096 bytes. */
  method RecvSource(sock: Client.Socket, size: nat) returns (source: seq<byte>)
    modifies sock
    ensures old(sock.incoming) == source + sock.incoming && |source| <= size
    ensures old(sock.interrupts) == 0 ==> source == old(sock.incoming)[..Min(size, |old(sock.incoming)|)]
  {
    source := [];
    var remain := size;
    while remain > 0
      invariant old(sock.incoming) == source + sock.incoming && remain >= 0 && |source| + remain == size
      invariant sock.interrupts == old(sock.interrupts)
      decreases remain
    {
      var r, interrupted, piece := sock.Recv(if remain > 4096 then 4096 else remain);
      if r <= 0 {
        return;
      }
      source := source + piece;
      remain := remain - r;
    }
  }

  /** handle_client up to the complete request. It is the one made of the parts that the receives
      return; and unless a signal cuts a receive short, the pieces in which the bytes arrive make no
      difference. */
  method ReceiveRequest(sock: Client.Socket)
    returns (request: Request, ghost common: seq<byte>, ghost rest: seq<byte>, ghost source: seq<byte>)
    modifies sock
    ensures old(sock.incoming) == common + (rest + (source + sock.incoming))
    ensures |common| <= COMMON_SIZE && |rest| <= HeaderRest(common)
    ensures |source| <= HeaderSize(TwoParts(common, rest))
    ensures request == FromParts(common, rest, source)
    ensures old(sock.interrupts) == 0 ==> request == Served(old(sock.incoming))
  {
    hide GetText, GetU32, HeaderBuffer, TwoParts;
    var head := RecvWait(sock, COMMON_SIZE);
    common, rest, source := head, [], [];
    if head == [] {
      return Nothing, common, rest, source;
    }
    assert sock.incoming == old(sock.incoming)[|common|..];
    ghost var left := sock.incoming;
    var isPull := HeaderBuffer(head)[5] == PKT_GET_FILES;
    var tail := RecvWait(sock, HeaderRest(head));
    rest := tail;
    if tail == [] {
      return Nothing, common, rest, source;
    }
    assert sock.incoming == left[|rest|..];
    var header := TwoParts(head, tail);
    if isPull {
      return GetFiles(GetText(header[ID_AT..NAME_AT])), common, rest, source;
    }
    var payload := RecvSource(sock, HeaderSize(header));
    source := payload;
    request := Submit(GetText(header[ID_AT..NAME_AT]), GetText(header[NAME_AT..SIZE_AT]), HeaderSize(header), payload);
  }

  /** Both ends together: what the client reports as sent, the server has, byte for byte. */
  method SubmitOver(id: Text, path: Text, size: nat, file: PullServer.Source, interrupts: nat)
    returns (ok: bool, request: Request)
    requires NoZero(id) && |id| < MAX_STUDENT_ID && NoZero(path)
    modifies file
    ensures ok ==> 1 <= size <= MAX_SOURCE && size <= |old(file.remaining)|
    ensures ok ==> request == Submit(id, Truncate(BaseName(path), MAX_FILENAME), size, old(file.remaining)[..size])
    ensures !(1 <= size <= MAX_SOURCE && size <= |old(file.remaining)|) ==> !ok && request == Nothing
  {
    ghost var content := file.remaining;
    var up := new Uplink(interrupts);
    ghost var sent;
    ok, sent := SendSource(id, path, size, file, up);
    var sock := new Client.Socket(up.wire, 0);
    ghost var common, rest, source;
    request, common, rest, source := ReceiveRequest(sock);
    if ok {
      var s := SubmitBytes(id, path, content[..size]);
      SubmissionRoundTrip(id, path, content[..size], []);
      assert s + [] == s == up.wire;
    }
    hide SubmitBytes, BaseName, PutSubmit;
  }
}
