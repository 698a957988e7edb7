/** A submission or a request for files on the wire: what the client sends (client/client.c) and what
    the server makes of the bytes that arrive (server/server.c). */
module Submission {
  import opened Bytes
  import opened Wire
  import Crc32

  const MAX_SOURCE := 1024 * 1024

  // Offsets in SubmitHeader.
  const ID_AT := 8
  const NAME_AT := 24
  const SIZE_AT := 152
  const CHECKSUM_AT := 156

  // ----------------------------------------------------------------------------------- the client

  /** strrchr, as an index; -1 if there is none. */
  function LastIndex(s: Text, c: byte): (i: int)
    ensures -1 <= i < |s|
    ensures i >= 0 ==> s[i] == c
    ensures forall k :: i < k < |s| ==> s[k] != c
  {
    if s == [] then -1 else if s[|s| - 1] == c then |s| - 1 else LastIndex(s[..|s| - 1], c)
  }

  /** The part after the last slash or backslash. */
  function BaseName(path: Text): Text {
    var (unix, windows) := (LastIndex(path, SLASH), LastIndex(path, BACKSLASH));
    path[(if windows > unix then windows else unix) + 1..]
  }

  /** The base name is the end of the path, whole if there is no separator, and has none itself. */
  lemma BaseNameIsLast(path: Text)
    ensures var base := BaseName(path);
            && 0x2F !in base && 0x5C !in base
            && |base| <= |path| && base == path[|path| - |base|..]
            && (|base| < |path| ==> path[|path| - |base| - 1] == 0x2F || path[|path| - |base| - 1] == 0x5C)
  {
  }

  function PutSubmit(id: Text, name: Text, size: nat, checksum: bv32): (s: seq<byte>)
    ensures |s| == SUBMIT_SIZE
  {
    PutCommon(PKT_SUBMIT, SUBMIT_SIZE) + PutText(id, MAX_STUDENT_ID) + PutText(name, MAX_FILENAME)
    + PutU32(size) + PutWord(checksum)
  }

  function PutGetFiles(id: Text): (s: seq<byte>)
    ensures |s| == GET_FILES_SIZE
  {
    PutCommon(PKT_GET_FILES, GET_FILES_SIZE) + PutText(id, MAX_STUDENT_ID)
  }

  /** All that send_source sends. */
  function SubmitBytes(id: Text, path: Text, source: seq<byte>): seq<byte> {
    PutSubmit(id, BaseName(path), |source|, Crc32.Checksum(source)) + source
  }

  // ----------------------------------------------------------------------------------- the server

  /** What handle_client takes the arriving bytes for. */
  datatype Request =
    | Nothing
    | GetFiles(id: Text)
    | Submit(id: Text, name: Text, size: nat, source: seq<byte>)

  function Min(a: nat, b: nat): nat {
    if a < b then a else b
  }

  /** The header buffer, zeroed beforehand, once these bytes have arrived in it. */
  function HeaderBuffer(arrived: seq<byte>): (s: seq<byte>)
    requires |arrived| <= SUBMIT_SIZE
    ensures |s| == SUBMIT_SIZE
  {
    arrived + Zeros(SUBMIT_SIZE - |arrived|)
  }

  /** What the first two receives leave in it: the second one writes from offset 8 on in any case. */
  function TwoParts(common: seq<byte>, rest: seq<byte>): (s: seq<byte>)
    requires |common| <= COMMON_SIZE && |rest| <= SUBMIT_SIZE - COMMON_SIZE
    ensures |s| == SUBMIT_SIZE
  {
    HeaderBuffer(common + Zeros(COMMON_SIZE - |common|) + rest)
  }

  /** How many bytes the second receive asks for. */
  function HeaderRest(common: seq<byte>): nat
    requires |common| <= COMMON_SIZE
  {
    (if HeaderBuffer(common)[5] == PKT_GET_FILES then GET_FILES_SIZE else SUBMIT_SIZE) - COMMON_SIZE
  }

  function HeaderSize(h: seq<byte>): nat
    requires |h| == SUBMIT_SIZE
  {
    GetU32(h[SIZE_AT..CHECKSUM_AT])
  }

  /** What handle_client makes of the three parts it receives. A part may be shorter than asked for;
      only a missing one is noticed. */
  function FromParts(common: seq<byte>, rest: seq<byte>, source: seq<byte>): Request
    requires |common| <= COMMON_SIZE && |rest| <= SUBMIT_SIZE - COMMON_SIZE
  {
    if common == [] || rest == [] then Nothing
    else
      var h := TwoParts(common, rest);
      if HeaderBuffer(common)[5] == PKT_GET_FILES then GetFiles(GetText(h[ID_AT..NAME_AT]))
      else Submit(GetText(h[ID_AT..NAME_AT]), GetText(h[NAME_AT..SIZE_AT]), HeaderSize(h), source)
  }

  /** The parts of a stream when every receive is given all it asks for, as far as the stream goes. */
  function Served(s: seq<byte>): Request {
    var common := s[..Min(COMMON_SIZE, |s|)];
    var s1 := s[|common|..];
    var rest := s1[..Min(HeaderRest(common), |s1|)];
    var s2 := s1[|rest|..];
    var size := HeaderSize(TwoParts(common, rest));
    FromParts(common, rest, s2[..Min(size, |s2|)])
  }

  // -------------------------------------------------------------------------------- what it means

  lemma CommonType(pktType: byte, headerSize: nat)
    ensures PutCommon(pktType, headerSize)[5] == pktType
  {
  }

  /** How a stream that starts with a whole common header is taken apart. */
  lemma ServedAs(common: seq<byte>, rest: seq<byte>, left: seq<byte>)
    requires |common| == COMMON_SIZE && |rest| == HeaderRest(common)
    ensures Served(common + (rest + left)) ==
            FromParts(common, rest, left[..Min(HeaderSize(TwoParts(common, rest)), |left|)])
    ensures TwoParts(common, rest) == HeaderBuffer(common + rest)
  {
    var s := common + (rest + left);
    assert s[..COMMON_SIZE] == common && s[COMMON_SIZE..] == rest + left;
    assert (rest + left)[..|rest|] == rest && (rest + left)[|rest|..] == left;
    assert common + Zeros(0) == common;
    hide HeaderRest, HeaderSize, FromParts, HeaderBuffer;
  }

  /** A request for files is taken for one, whatever follows it, and never for a submission. */
  lemma GetFilesServed(id: Text, tail: seq<byte>)
    requires NoZero(id)
    ensures Served(PutGetFiles(id) + tail) == GetFiles(Truncate(id, MAX_STUDENT_ID))
  {
    var common, rest := PutCommon(PKT_GET_FILES, GET_FILES_SIZE), PutText(id, MAX_STUDENT_ID);
    CommonType(PKT_GET_FILES, GET_FILES_SIZE);
    TextRoundTrip(id, MAX_STUDENT_ID);
    hide PutCommon, PutText;
    assert HeaderBuffer(common)[5] == common[5];
    assert PutGetFiles(id) + tail == common + (rest + tail);
    ServedAs(common, rest, tail);
    assert HeaderBuffer(common + rest)[ID_AT..NAME_AT] == rest;
    hide Served, HeaderBuffer, HeaderSize, TwoParts;
  }

  /** The fields of a submission's header are where the server looks for them. */
  lemma SubmitFields(id: Text, name: Text, size: nat, checksum: bv32)
    ensures var h := PutSubmit(id, name, size, checksum);
            && h[5] == PKT_SUBMIT
            && h[ID_AT..NAME_AT] == PutText(id, MAX_STUDENT_ID)
            && h[NAME_AT..SIZE_AT] == PutText(name, MAX_FILENAME)
            && h[SIZE_AT..CHECKSUM_AT] == PutU32(size)
  {
    CommonType(PKT_SUBMIT, SUBMIT_SIZE);
    hide PutCommon, PutText, PutU32, PutWord;
  }

  /** Any 160 bytes are taken for the header of a submission, unless their sixth says that it is a request for
      files, and as much of what follows as the header says for the source. Nothing else is looked at. */
  lemma WholeHeader(h: seq<byte>, data: seq<byte>)
    requires |h| == 160 && h[5] != 3
    ensures var size := ((h[152] as int * 256 + h[153] as int) * 256 + h[154] as int) * 256 + h[155] as int;
            Served(h + data) == Submit(GetText(h[8..24]), GetText(h[24..152]), size, data[..Min(size, |data|)])
    ensures GetU32(h[152..156]) ==
            ((h[152] as int * 256 + h[153] as int) * 256 + h[154] as int) * 256 + h[155] as int
  {
    var common, rest := h[..COMMON_SIZE], h[COMMON_SIZE..];
    assert HeaderBuffer(common)[5] == h[5];
    assert h + data == common + (rest + data);
    ServedAs(common, rest, data);
    assert common + rest == h && HeaderBuffer(h) == h;
    hide Served, GetText, GetU32, HeaderBuffer, TwoParts;
    BigEndian(h[152], h[153], h[154], h[155]);
    assert h[152..156] == [h[152], h[153], h[154], h[155]];
  }

  /** And any 24 bytes whose sixth says so for a request for files. */
  lemma WholeFilesHeader(h: seq<byte>, data: seq<byte>)
    requires |h| == 24 && h[5] == 3
    ensures Served(h + data) == GetFiles(GetText(h[8..24]))
  {
    var common, rest := h[..COMMON_SIZE], h[COMMON_SIZE..];
    assert HeaderBuffer(common)[5] == h[5];
    assert h + data == common + (rest + data);
    ServedAs(common, rest, data);
    assert common + rest == h && HeaderBuffer(h)[8..24] == h[8..24];
    hide Served, GetText, GetU32, HeaderBuffer, TwoParts;
  }

  lemma SubmitShape(id: Text, path: Text, source: seq<byte>, arrived: nat, tail: seq<byte>)
    requires arrived <= |source|
    ensures |SubmitBytes(id, path, source)| == SUBMIT_SIZE + |source|
    ensures SubmitBytes(id, path, source)[..SUBMIT_SIZE + arrived] + tail
         == PutSubmit(id, BaseName(path), |source|, Crc32.Checksum(source)) + (source[..arrived] + tail)
  {
    hide PutSubmit, BaseName;
  }

  lemma PartLacksZero(path: Text)
    requires NoZero(path)
    ensures NoZero(BaseName(path))
  {
  }

  lemma SubmitHeaderRead(id: Text, name: Text, size: nat, checksum: bv32)
    requires NoZero(id) && NoZero(name) && size < 0x1_0000_0000
    ensures var h := PutSubmit(id, name, size, checksum);
            && h[5] == PKT_SUBMIT
            && GetText(h[ID_AT..NAME_AT]) == Truncate(id, MAX_STUDENT_ID)
            && GetText(h[NAME_AT..SIZE_AT]) == Truncate(name, MAX_FILENAME)
            && GetU32(h[SIZE_AT..CHECKSUM_AT]) == size
  {
    hide PutSubmit, PutText, GetText, PutU32, GetU32, Truncate, NoZero;
    SubmitFields(id, name, size, checksum);
    TextRoundTrip(id, MAX_STUDENT_ID);
    TextRoundTrip(name, MAX_FILENAME);
    U32RoundTrip(size);
  }

  lemma SourceTaken(h: seq<byte>, size: nat, data: seq<byte>, tail: seq<byte>)
    requires |h| == SUBMIT_SIZE && h[5] != PKT_GET_FILES && GetU32(h[SIZE_AT..CHECKSUM_AT]) == size
    requires |data| <= size && (|data| < size ==> tail == [])
    ensures Served(h + (data + tail)) == Submit(GetText(h[ID_AT..NAME_AT]), GetText(h[NAME_AT..SIZE_AT]), size, data)
  {
    WholeHeader(h, data + tail);
    hide Served, GetText, GetU32;
    assert (data + tail)[..Min(size, |data + tail|)] == data;
  }

  /** A submission is taken for one, with its id, its name cut to 127 bytes, and its size; the source
      is what has arrived of it, and nothing of what follows. */
  lemma SubmitServed(id: Text, path: Text, source: seq<byte>, arrived: nat, tail: seq<byte>)
    requires NoZero(id) && NoZero(path) && 1 <= |source| <= MAX_SOURCE && arrived <= |source|
    requires arrived < |source| ==> tail == []
    ensures |SubmitBytes(id, path, source)| == SUBMIT_SIZE + |source|
    ensures Served(SubmitBytes(id, path, source)[..SUBMIT_SIZE + arrived] + tail)
         == Submit(Truncate(id, MAX_STUDENT_ID), Truncate(BaseName(path), MAX_FILENAME), |source|, source[..arrived])
  {
    hide Served, SubmitBytes, PutSubmit, BaseName, Truncate, GetText, GetU32, NoZero, Crc32.Checksum;
    PartLacksZero(path);
    SubmitHeaderRead(id, BaseName(path), |source|, Crc32.Checksum(source));
    SubmitShape(id, path, source, arrived, tail);
    SourceTaken(PutSubmit(id, BaseName(path), |source|, Crc32.Checksum(source)), |source|, source[..arrived], tail);
  }

  /** The whole submission arrives as it was sent. */
  lemma SubmissionRoundTrip(id: Text, path: Text, source: seq<byte>, tail: seq<byte>)
    requires NoZero(id) && |id| <= 15 && NoZero(path) && 1 <= |source| <= 1048576
    ensures Served(SubmitBytes(id, path, source) + tail)
         == Submit(id, Truncate(BaseName(path), MAX_FILENAME), |source|, source)
  {
    hide NoZero, Served, SubmitBytes, BaseName;
    SubmitServed(id, path, source, |source|, tail);
    var s := SubmitBytes(id, path, source);
    assert s[..SUBMIT_SIZE + |source|] == s && source[..|source|] == source;
  }

  /** A connection lost on the way is noticed if and only if no more than the first 8 bytes have come;
      later, the server goes on with what has arrived of the source. */
  lemma LossNoticed(id: Text, path: Text, source: seq<byte>, k: nat)
    requires NoZero(id) && NoZero(path) && 1 <= |source| <= 1048576 && k <= 160 + |source|
    ensures Served(SubmitBytes(id, path, source)[..k]) == Nothing <==> k <= 8
    ensures k >= 160 ==>
              Served(SubmitBytes(id, path, source)[..k]) ==
              Submit(Truncate(id, MAX_STUDENT_ID), Truncate(BaseName(path), MAX_FILENAME), |source|,
                     source[..k - 160])
  {
    var s := SubmitBytes(id, path, source);
    if k >= SUBMIT_SIZE {
      SubmitServed(id, path, source, k - SUBMIT_SIZE, []);
      assert s[..k] + [] == s[..k];
    }
    hide PutSubmit, HeaderBuffer, GetU32, GetText;
  }

  // ------------------------------------------------------------- a receive cut short by a signal

  lemma BigEndian(a: byte, b: byte, c: byte, d: byte)
    ensures GetU32([a, b, c, d]) == ((a as int * 256 + b as int) * 256 + c as int) * 256 + d as int
  {
    var s := [a, b, c, d];
    assert s[..2] == [a, b] && s[2..] == [c, d];
  }

  lemma SourceSizeBytes(n: nat)
    requires n <= MAX_SOURCE
    ensures PutU32(n) == [0, n / 0x1_0000, n / 256 % 256, n % 256]
  {
    assert n / 0x1_0000 / 256 % 256 == 0 && n / 0x1_0000 % 256 == n / 0x1_0000;
  }

  /** The size the server reads when only the first k bytes of the size have come. */
  function SizeOf(n: nat, k: nat): nat {
    if k <= 1 then 0
    else if k == 2 then n / 0x1_0000 * 0x1_0000
    else if k == 3 then n / 256 * 256
    else n
  }

  lemma SizeCut(n: nat, k: nat)
    requires n <= MAX_SOURCE && k <= 4
    ensures GetU32(PutU32(n)[..k] + Zeros(4 - k)) == SizeOf(n, k)
  {
    SourceSizeBytes(n);
    hide PutU32, GetU32;
    var a, b, c := n / 0x1_0000, n / 256 % 256, n % 256;
    if k == 0 {
      assert PutU32(n)[..k] + Zeros(4 - k) == [0, 0, 0, 0];
      BigEndian(0, 0, 0, 0);
    } else if k == 1 {
      assert PutU32(n)[..k] + Zeros(4 - k) == [0, 0, 0, 0];
      BigEndian(0, 0, 0, 0);
    } else if k == 2 {
      assert PutU32(n)[..k] + Zeros(4 - k) == [0, a, 0, 0];
      BigEndian(0, a, 0, 0);
    } else if k == 3 {
      assert PutU32(n)[..k] + Zeros(4 - k) == [0, a, b, 0];
      BigEndian(0, a, b, 0);
    } else {
      assert PutU32(n)[..k] + Zeros(4 - k) == [0, a, b, c];
      BigEndian(0, a, b, c);
    }
  }

  /** When the receive of the header ends after m bytes of it, what has come of the size is at its
      place, and zeros follow. */
  lemma HeaderCut(h: seq<byte>, m: nat)
    requires |h| == SUBMIT_SIZE && COMMON_SIZE <= m < SUBMIT_SIZE
    ensures var buffer := TwoParts(h[..COMMON_SIZE], h[COMMON_SIZE..m]);
            && buffer == h[..m] + Zeros(SUBMIT_SIZE - m)
            && (m <= SIZE_AT ==> buffer[SIZE_AT..CHECKSUM_AT] == Zeros(4))
            && (SIZE_AT < m < CHECKSUM_AT ==>
                  buffer[SIZE_AT..CHECKSUM_AT] == h[SIZE_AT..CHECKSUM_AT][..m - SIZE_AT] + Zeros(CHECKSUM_AT - m))
            && (m >= CHECKSUM_AT ==> buffer[SIZE_AT..CHECKSUM_AT] == h[SIZE_AT..CHECKSUM_AT])
  {
    var common, rest := h[..COMMON_SIZE], h[COMMON_SIZE..m];
    assert common + Zeros(0) + rest == h[..m];
  }

  lemma CutSize(h: seq<byte>, n: nat, m: nat)
    requires |h| == SUBMIT_SIZE && COMMON_SIZE < m < SUBMIT_SIZE && n <= MAX_SOURCE
    requires h[SIZE_AT..CHECKSUM_AT] == PutU32(n)
    ensures HeaderSize(TwoParts(h[..COMMON_SIZE], h[COMMON_SIZE..m])) ==
            SizeOf(n, if m <= SIZE_AT then 0 else Min(m - SIZE_AT, 4))
    ensures HeaderBuffer(h[..COMMON_SIZE])[5] == h[5]
  {
    HeaderCut(h, m);
    var k := if m <= SIZE_AT then 0 else Min(m - SIZE_AT, 4);
    SizeCut(n, k);
    hide TwoParts, PutU32, GetU32, SizeOf;
    assert TwoParts(h[..COMMON_SIZE], h[COMMON_SIZE..m])[SIZE_AT..CHECKSUM_AT] == PutU32(n)[..k] + Zeros(4 - k);
  }

  lemma HeaderAndSource(h: seq<byte>, source: seq<byte>, m: nat)
    requires |h| == SUBMIT_SIZE && COMMON_SIZE < m < SUBMIT_SIZE
    ensures var s := h + source;
            && s[..COMMON_SIZE] == h[..COMMON_SIZE] && s[COMMON_SIZE..m] == h[COMMON_SIZE..m]
            && s[m..] == s[m..SUBMIT_SIZE] + source
  {
  }

  /** A signal that ends the second receive after m of a submission's 160 header bytes is not noticed.
      The rest of the header is taken for the beginning of the source; and of what follows as much is
      taken as the size says, of which the bytes that have not come count as zero. */
  lemma HeaderCutMisread(id: Text, path: Text, source: seq<byte>, m: nat, got: seq<byte>)
    requires COMMON_SIZE < m < SUBMIT_SIZE && |source| <= MAX_SOURCE
    ensures var s := SubmitBytes(id, path, source);
            var (common, rest) := (s[..COMMON_SIZE], s[COMMON_SIZE..m]);
            var size := SizeOf(|source|, if m <= SIZE_AT then 0 else Min(m - SIZE_AT, 4));
            var request := FromParts(common, rest, got);
            && HeaderSize(TwoParts(common, rest)) == size
            && request.Submit? && request.size == size && request.source == got
            && s[m..] == s[m..SUBMIT_SIZE] + source
  {
    var h := PutSubmit(id, BaseName(path), |source|, Crc32.Checksum(source));
    SubmitFields(id, BaseName(path), |source|, Crc32.Checksum(source));
    HeaderAndSource(h, source, m);
    hide PutSubmit, BaseName, Crc32.Checksum, GetText, GetU32, PutText, PutU32, TwoParts, HeaderBuffer, SizeOf;
    CutSize(h, |source|, m);
    hide HeaderSize;
  }
}
