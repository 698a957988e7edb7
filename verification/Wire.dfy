/** The packed, big-endian packet layouts of include/protocol.h. */
module Wire {

  import opened Bytes

  // Byte strings: file names, ids and messages, without their terminating zero.
  type Text = seq<byte>

  const MAGIC := 0x4D494E49
  const VERSION: byte := 3
  const MAX_FILENAME := 128
  const MAX_STUDENT_ID := 16

  const PKT_SUBMIT: byte := 1
  const PKT_GET_FILES: byte := 3
  const RES_FILE_META: byte := 10
  const RES_FILE_CHUNK: byte := 11
  const RES_FILE_END: byte := 12
  const RES_FILE_DONE: byte := 13
  const RES_FILE_ERROR: byte := 14

  const COMMON_SIZE := 8
  const GET_FILES_SIZE := 24
  const SUBMIT_SIZE := 160
  const META_SIZE := 144
  const CHUNK_SIZE := 16
  const END_SIZE := 16
  const ERROR_SIZE := 136

  // ------------------------------------------------------------------------------ integer fields

  function PutU16(n: nat): (s: seq<byte>)
    ensures |s| == 2
  {
    [n / 256 % 256, n % 256]
  }

  function GetU16(s: seq<byte>): (n: nat)
    requires |s| == 2
    ensures n < 0x1_0000
  {
    (s[0] as int) * 256 + s[1] as int
  }

  /** htonl of a value taken modulo 2^32. */
  function PutU32(n: nat): (s: seq<byte>)
    ensures |s| == 4
  {
    PutU16(n / 0x1_0000) + PutU16(n)
  }

  function GetU32(s: seq<byte>): (n: nat)
    requires |s| == 4
    ensures n < 0x1_0000_0000
  {
    GetU16(s[..2]) * 0x1_0000 + GetU16(s[2..])
  }

  lemma U16RoundTrip(n: nat)
    ensures GetU16(PutU16(n)) == n % 0x1_0000
  {
  }

  lemma U32RoundTrip(n: nat)
    ensures GetU32(PutU32(n)) == n % 0x1_0000_0000
  {
    U16RoundTrip(n / 0x1_0000);
    U16RoundTrip(n);
    assert PutU32(n)[..2] == PutU16(n / 0x1_0000) && PutU32(n)[2..] == PutU16(n);
    HalvesOf(n);
  }

  lemma HalvesOf(n: nat)
    ensures n / 0x1_0000 % 0x1_0000 * 0x1_0000 + n % 0x1_0000 == n % 0x1_0000_0000
  {
  }

  function PutWord(w: bv32): (s: seq<byte>)
    ensures |s| == 4
  {
    PutU32(w as int)
  }

  function GetWord(s: seq<byte>): bv32
    requires |s| == 4
  {
    GetU32(s) as bv32
  }

  lemma WordRoundTrip(w: bv32)
    ensures GetWord(PutWord(w)) == w
  {
    U32RoundTrip(w as int);
    WordIsInt(w);
  }

  lemma WordIsInt(w: bv32)
    ensures 0 <= w as int < 0x1_0000_0000 && (w as int) as bv32 == w
  {
  }

  // -------------------------------------------------------------------------------- text fields

  function Zeros(n: nat): (s: seq<byte>)
    ensures |s| == n && forall i :: 0 <= i < n ==> s[i] == 0
  {
    seq(n, i => 0)
  }

  predicate NoZero(s: Text) {
    0 !in s
  }

  /** strncpy(dst, s, width - 1) into a zeroed array. */
  function Truncate(s: Text, width: nat): (t: Text)
    requires width > 0
    ensures |t| < width
  {
    if |s| < width then s else s[..width - 1]
  }

  function PutText(s: Text, width: nat): (f: seq<byte>)
    requires width > 0
    ensures |f| == width
  {
    Truncate(s, width) + Zeros(width - |Truncate(s, width)|)
  }

  /** The C string at the start of an array: everything before the first zero. */
  function GetText(f: seq<byte>): (t: Text)
    ensures |t| <= |f| && t == f[..|t|] && NoZero(t)
    ensures |t| < |f| ==> f[|t|] == 0
  {
    if f == [] || f[0] == 0 then [] else [f[0]] + GetText(f[1..])
  }

  lemma {:induction false} GetTextOf(s: Text, rest: seq<byte>)
    requires NoZero(s) && (rest == [] || rest[0] == 0)
    ensures GetText(s + rest) == s
  {
    if s != [] {
      assert s[0] in s && s[0] != 0;
      assert (s + rest)[1..] == s[1..] + rest;
      GetTextOf(s[1..], rest);
    } else {
      assert s + rest == rest;
    }
  }

  lemma TextRoundTrip(s: Text, width: nat)
    requires width > 0 && NoZero(s)
    ensures GetText(PutText(s, width)) == Truncate(s, width)
  {
    GetTextOf(Truncate(s, width), Zeros(width - |Truncate(s, width)|));
  }

  // ------------------------------------------------------------------------------------ headers

  function PutCommon(pktType: byte, headerSize: nat): (s: seq<byte>)
    ensures |s| == COMMON_SIZE
  {
    PutU32(MAGIC) + [VERSION, pktType] + PutU16(headerSize)
  }

  datatype Common = Common(magic: nat, version: byte, pktType: byte, headerSize: nat)

  function GetCommon(s: seq<byte>): Common
    requires |s| == COMMON_SIZE
  {
    Common(GetU32(s[..4]), s[4], s[5], GetU16(s[6..8]))
  }

  lemma CommonRoundTrip(pktType: byte, headerSize: nat)
    requires headerSize < 0x1_0000
    ensures GetCommon(PutCommon(pktType, headerSize)) == Common(MAGIC, VERSION, pktType, headerSize)
  {
    var s := PutCommon(pktType, headerSize);
    U32RoundTrip(MAGIC);
    U16RoundTrip(headerSize);
    assert s[..4] == PutU32(MAGIC) && s[6..8] == PutU16(headerSize);
  }

  // FileMetaHeader after its common part.
  datatype Meta = Meta(name: Text, fileSize: nat, exec: byte, index: byte, total: byte)

  function PutMeta(m: Meta): (s: seq<byte>)
    ensures |s| == META_SIZE - COMMON_SIZE
  {
    PutText(m.name, MAX_FILENAME) + PutU32(m.fileSize) + [m.exec, m.index, m.total, 0]
  }

  /** As the receiver reads it: the name array is cut at its last byte first. */
  function GetMeta(s: seq<byte>): Meta
    requires |s| == META_SIZE - COMMON_SIZE
  {
    Meta(GetText(s[..MAX_FILENAME - 1]), GetU32(s[MAX_FILENAME..MAX_FILENAME + 4]),
         s[MAX_FILENAME + 4], s[MAX_FILENAME + 5], s[MAX_FILENAME + 6])
  }

  lemma MetaRoundTrip(m: Meta)
    requires NoZero(m.name) && m.fileSize < 0x1_0000_0000
    ensures GetMeta(PutMeta(m)) == m.(name := Truncate(m.name, MAX_FILENAME))
  {
    var s, t := PutMeta(m), Truncate(m.name, MAX_FILENAME);
    assert s[..MAX_FILENAME - 1] == t + Zeros(MAX_FILENAME - 1 - |t|);
    GetTextOf(t, Zeros(MAX_FILENAME - 1 - |t|));
    assert s[MAX_FILENAME..MAX_FILENAME + 4] == PutU32(m.fileSize);
    U32RoundTrip(m.fileSize);
  }

  // FileChunkHeader after its common part.
  function PutChunk(size: nat, offset: nat): (s: seq<byte>)
    ensures |s| == CHUNK_SIZE - COMMON_SIZE
  {
    PutU32(size) + PutU32(offset)
  }

  function GetChunkSize(s: seq<byte>): nat
    requires |s| == CHUNK_SIZE - COMMON_SIZE
  {
    GetU32(s[..4])
  }

  function GetChunkOffset(s: seq<byte>): nat
    requires |s| == CHUNK_SIZE - COMMON_SIZE
  {
    GetU32(s[4..])
  }

  lemma ChunkRoundTrip(size: nat, offset: nat)
    ensures GetChunkSize(PutChunk(size, offset)) == size % 0x1_0000_0000
    ensures GetChunkOffset(PutChunk(size, offset)) == offset % 0x1_0000_0000
  {
    var s := PutChunk(size, offset);
    assert s[..4] == PutU32(size) && s[4..] == PutU32(offset);
    U32RoundTrip(size);
    U32RoundTrip(offset);
  }

  // FileEndHeader after its common part, as END and as DONE.
  function PutEnd(checksum: bv32, total: byte): (s: seq<byte>)
    ensures |s| == END_SIZE - COMMON_SIZE
  {
    PutWord(checksum) + [total, 0, 0, 0]
  }

  function GetEndChecksum(s: seq<byte>): bv32
    requires |s| == END_SIZE - COMMON_SIZE
  {
    GetWord(s[..4])
  }

  lemma EndRoundTrip(checksum: bv32, total: byte)
    ensures GetEndChecksum(PutEnd(checksum, total)) == checksum
  {
    assert PutEnd(checksum, total)[..4] == PutWord(checksum);
    WordRoundTrip(checksum);
  }
}
