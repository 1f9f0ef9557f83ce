/** The checks over a datagram: `can_datagram_compute_crc`, `can_datagram_is_valid` and
    `can_datagram_id_start_is_set` (can_datagram.c:97-107, 191-212). */
module Checks {
  import opened Wire
  import opened Reader

  /** The checksum primitive `crc32(seed, bytes, len)` of `crc/crc32.h`. Its code is not part
      of this model, so every check takes it as a parameter and nothing is assumed about it. */
  type Crc32 = (uint32, seq<uint8>) -> uint32

  /** `ID_START_MASK` of `can_datagram.h`, which is not part of this model: assumed to be bit 7
      of a CAN identifier. */
  const ID_START_MASK: bv32 := 0x80

  /** The buffers hold the bytes the checksum reads: `destination_nodes[0..len)` and
      `data[0..data_len)`. Neither read is bounds-checked in the C code. */
  predicate CrcReadable(rec: Record)
  {
    rec.destinationNodesLen <= |rec.destinationNodes| && rec.dataLen <= |rec.data|
  }

  /** The byte strings the checksum covers, in order: the destination count, the destination
      bytes, the data length re-encoded big-endian, and the data bytes. */
  function CrcSegments(rec: Record): seq<seq<uint8>>
    requires CrcReadable(rec)
  {
    [[rec.destinationNodesLen], rec.destinationNodes[..rec.destinationNodesLen],
     BigEndian(rec.dataLen), rec.data[..rec.dataLen]]
  }

  /** The primitive chained over a list of byte strings, each result seeding the next call. */
  function ChainCrc(crc32: Crc32, seed: uint32, segments: seq<seq<uint8>>): uint32
    decreases |segments|
  {
    if |segments| == 0 then seed else ChainCrc(crc32, crc32(seed, segments[0]), segments[1..])
  }

  /** Chaining over four strings is four nested calls. */
  lemma ChainFour(crc32: Crc32, seed: uint32, a: seq<uint8>, b: seq<uint8>, c: seq<uint8>, d: seq<uint8>)
    ensures ChainCrc(crc32, seed, [a, b, c, d]) == crc32(crc32(crc32(crc32(seed, a), b), c), d)
  {
    var s: seq<seq<uint8>> := [a, b, c, d];
    var s1: seq<seq<uint8>> := s[1..];
    var s2: seq<seq<uint8>> := s1[1..];
    var s3: seq<seq<uint8>> := s2[1..];
    assert s1 == [b, c, d] && s2 == [c, d] && s3 == [d] && |s3[1..]| == 0;
    var c1 := crc32(seed, a);
    var c2 := crc32(c1, b);
    var c3 := crc32(c2, c);
    assert ChainCrc(crc32, c3, s3) == crc32(c3, d);
    assert ChainCrc(crc32, c2, s2) == ChainCrc(crc32, c3, s3);
    assert ChainCrc(crc32, c1, s1) == ChainCrc(crc32, c2, s2);
  }

  /** The concatenation of a list of byte strings. */
  function Flatten(segments: seq<seq<uint8>>): seq<uint8>
    decreases |segments|
  {
    if |segments| == 0 then [] else segments[0] + Flatten(segments[1..])
  }

  /** `can_datagram_compute_crc`: four chained calls of the primitive from seed 0. */
  function ComputeCrc(crc32: Crc32, rec: Record): (c: uint32)
    requires CrcReadable(rec)
    ensures c == ChainCrc(crc32, 0, CrcSegments(rec))
  {
    ChainFour(crc32, 0, [rec.destinationNodesLen], rec.destinationNodes[..rec.destinationNodesLen],
              BigEndian(rec.dataLen), rec.data[..rec.dataLen]);
    var c0 := crc32(0, [rec.destinationNodesLen]);
    var c1 := crc32(c0, rec.destinationNodes[..rec.destinationNodesLen]);
    var c2 := crc32(c1, BigEndian(rec.dataLen));
    crc32(c2, rec.data[..rec.dataLen])
  }

  /** Flattening four strings is concatenating them. */
  lemma FlattenFour(a: seq<uint8>, b: seq<uint8>, c: seq<uint8>, d: seq<uint8>)
    ensures Flatten([a, b, c, d]) == a + b + c + d
  {
    var s: seq<seq<uint8>> := [a, b, c, d];
    var s1: seq<seq<uint8>> := s[1..];
    var s2: seq<seq<uint8>> := s1[1..];
    var s3: seq<seq<uint8>> := s2[1..];
    assert s1 == [b, c, d] && s2 == [c, d] && s3 == [d] && |s3[1..]| == 0;
    assert Flatten(s3) == d + [];
    assert Flatten(s2) == c + Flatten(s3);
    assert Flatten(s1) == b + Flatten(s2);
  }

  /** With destinations, the checksum input is the wire form after the checksum field. */
  lemma CrcInputWithDestinations(rec: Record)
    requires EncodeFits(rec) && rec.destinationNodesLen != 0
    ensures CrcReadable(rec) && Flatten(CrcSegments(rec)) == Encode(rec)[5..]
  {
    var e, d := Encode(rec), DestinationSpan(rec);
    var count, dst, len, data := [rec.destinationNodesLen], rec.destinationNodes[..d], BigEndian(rec.dataLen), rec.data[..rec.dataLen];
    assert CrcSegments(rec) == [count, dst, len, data];
    FlattenFour(count, dst, len, data);
    EncodeFields(rec);
    SuffixPieces(e, 5, 6, 6 + d, 10 + d);
    assert e[5..6] == count;
  }

  /** Without destinations, the checksum input skips the padding destination byte. */
  lemma CrcInputWithoutDestinations(rec: Record)
    requires EncodeFits(rec) && rec.destinationNodesLen == 0
    ensures CrcReadable(rec) && Flatten(CrcSegments(rec)) == [Encode(rec)[5]] + Encode(rec)[7..]
  {
    var e := Encode(rec);
    EncodeFields(rec);
    FlattenFour([0], [], BigEndian(rec.dataLen), rec.data[..rec.dataLen]);
    assert rec.destinationNodes[..0] == [];
    SuffixPieces(e, 5, 6, 7, 11);
    assert e[5..6] == [e[5]];
  }

  /** What the checksum covers on the wire: every byte after the checksum field, except the
      one padding destination byte a datagram with no destinations carries. The version and
      the stored checksum never enter it. */
  lemma CrcCoverage(crc32: Crc32, rec: Record, v: uint8, c: uint32)
    requires EncodeFits(rec)
    ensures CrcReadable(rec)
    ensures rec.destinationNodesLen != 0 ==> Flatten(CrcSegments(rec)) == Encode(rec)[5..]
    ensures rec.destinationNodesLen == 0 ==> Flatten(CrcSegments(rec)) == [Encode(rec)[5]] + Encode(rec)[7..]
    ensures ComputeCrc(crc32, rec.(protocolVersion := v, crc := c)) == ComputeCrc(crc32, rec)
  {
    if rec.destinationNodesLen != 0 {
      CrcInputWithDestinations(rec);
    } else {
      CrcInputWithoutDestinations(rec);
    }
  }

  /** `can_datagram_is_valid`: complete, checksum matching, and the supported version. The
      checksum is only computed once the reader is complete, and then it must be readable. */
  function IsValid(crc32: Crc32, rec: Record, r: ReaderCursor): (valid: bool)
    requires IsComplete(r) ==> CrcReadable(rec)
    ensures valid <==>
      && IsComplete(r)
      && rec.crc == ChainCrc(crc32, 0, CrcSegments(rec))
      && rec.protocolVersion == CAN_DATAGRAM_VERSION
  {
    IsComplete(r) && ComputeCrc(crc32, rec) == rec.crc && rec.protocolVersion == CAN_DATAGRAM_VERSION
  }

  /** `can_datagram_id_start_is_set`: whether a CAN identifier marks the start of a datagram. */
  function IdStartIsSet(id: bv32): (isSet: bool)
    ensures isSet <==> (id >> 7) & 1 == 1
  {
    id & ID_START_MASK != 0
  }

  /** A datagram stamped with its own checksum and the supported version, sent by the writer's
      wire form into a started reader, is valid on arrival when its data is not empty and fits
      the declared buffer. */
  lemma StampedDatagramArrivesValid(crc32: Crc32, src: Record, rec: Record)
    requires EncodeFits(src) && Attached(rec)
    requires 1 <= src.dataLen <= rec.dataBufferSize
    requires CrcReadable(src) && src.crc == ComputeCrc(crc32, src)
    requires src.protocolVersion == CAN_DATAGRAM_VERSION
    ensures var (out, r) := Feed(Restart(rec), ReaderStart, Encode(src));
      CrcReadable(out) && IsValid(crc32, out, r) && IsValidChecked(crc32, out, r)
  {
    RoundTrip(src, rec);
    var out := Parsed(src, rec);
    var d, l, n := DestinationSpan(src), src.destinationNodesLen as int, src.dataLen as int;
    assert out.destinationNodes[..l] == src.destinationNodes[..d][..l];
    assert out.data[..n] == src.data[..n];
    assert CrcSegments(out) == CrcSegments(src);
  }

  /** The datagram is complete after a data-buffer overflow (can_datagram.c:84-87) while
      `data_len` still announces more bytes than the buffer holds, so `is_valid` goes on to
      compute the checksum over `data[0..data_len)`, past the end of the buffer. */
  lemma OverflowMakesIsValidReadPastBuffer(rec: Record, r: ReaderCursor, s: seq<uint8>)
    requires Attached(rec) && ReaderInv(rec, r) && r.state == Data && r.dataBytesRead == 0
    requires rec.dataLen > |rec.data|
    requires |s| >= DataQuota(rec)
    ensures IsComplete(Feed(rec, r, s).1)
    ensures !CrcReadable(Feed(rec, r, s).0)
  {
    DataTruncation(rec, r, s);
  }

  /** `can_datagram_is_valid` with the overflow case rejected before the checksum is computed:
      a datagram whose announced data did not fit the declared buffer is invalid. It reads
      only within the buffers for every attached record. */
  predicate IsValidChecked(crc32: Crc32, rec: Record, r: ReaderCursor)
    requires Attached(rec)
    ensures rec.dataLen > rec.dataBufferSize ==> !IsValidChecked(crc32, rec, r)
    ensures rec.dataLen <= rec.dataBufferSize ==>
      (CrcReadable(rec) && (IsValidChecked(crc32, rec, r) <==> IsValid(crc32, rec, r)))
  {
    IsComplete(r) && rec.dataLen <= rec.dataBufferSize
      && ComputeCrc(crc32, rec) == rec.crc && rec.protocolVersion == CAN_DATAGRAM_VERSION
  }
}
