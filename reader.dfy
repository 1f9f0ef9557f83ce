/** The reader: `can_datagram_input_byte` (can_datagram.c:33-95) as a step function on a record
    and a reader cursor, and what feeding it a stream of bytes does. */
module Reader {
  import opened Wire

  /** The value `can_datagram_start` puts in `crc` (can_datagram.c:112). The four CRC bytes
      shift it out again (HeaderParse). */
  const READER_CRC_SEED: uint32 := 0x11223344

  /** The reader's part of `can_datagram_t`: its state and its four byte counters. */
  datatype ReaderCursor = ReaderCursor(
    state: State,
    crcBytesRead: nat,
    destinationNodesRead: nat,
    dataLengthBytesRead: nat,
    dataBytesRead: nat)

  /** The cursor after `can_datagram_init` and after `can_datagram_start` (can_datagram.c:109-117). */
  const ReaderStart := ReaderCursor(ProtocolVersion, 0, 0, 0, 0)

  /** The record after `can_datagram_start`: only `crc` changes. */
  function Restart(rec: Record): (r: Record)
    ensures r.crc == READER_CRC_SEED
    ensures r.(crc := rec.crc) == rec
  {
    rec.(crc := READER_CRC_SEED)
  }

  /** The array writes of the next step are in bounds: the C code does not check the
      destination write (can_datagram.c:56) nor the data write (can_datagram.c:76). */
  predicate InBounds(rec: Record, r: ReaderCursor)
  {
    && (r.state == Dst ==> r.destinationNodesRead < |rec.destinationNodes|)
    && (r.state == Data ==> r.dataBytesRead < |rec.data|)
  }

  /** One call of `can_datagram_input_byte(dt, v)`. */
  function ReadStep(rec: Record, r: ReaderCursor, v: uint8): (res: (Record, ReaderCursor))
    requires InBounds(rec, r)
    ensures Rank(res.1.state) == Rank(r.state) || Rank(res.1.state) == Rank(r.state) + 1
    ensures r.state == Trailing ==> res == (rec, r)
    ensures |res.0.destinationNodes| == |rec.destinationNodes| && |res.0.data| == |rec.data|
    ensures res.0.dataBufferSize == rec.dataBufferSize
  {
    match r.state
    case ProtocolVersion =>
      (rec.(protocolVersion := v), r.(state := Crc))
    case Crc =>
      var n := r.crcBytesRead + 1;
      (rec.(crc := ShiftIn(rec.crc, v)),
       r.(crcBytesRead := n, state := if n >= 4 then DstLen else Crc))
    case DstLen =>
      (rec.(destinationNodesLen := v), r.(state := Dst))
    case Dst =>
      var n := r.destinationNodesRead + 1;
      (rec.(destinationNodes := rec.destinationNodes[r.destinationNodesRead := v]),
       r.(destinationNodesRead := n,
          state := if n >= rec.destinationNodesLen then DataLen else Dst))
    case DataLen =>
      var n := r.dataLengthBytesRead + 1;
      (rec.(dataLen := ShiftIn(rec.dataLen, v)),
       r.(dataLengthBytesRead := n, state := if n >= 4 then Data else DataLen))
    case Data =>
      var n := r.dataBytesRead + 1;
      // Trailing once the announced length is read (line 79) or the buffer is full (line 84).
      (rec.(data := rec.data[r.dataBytesRead := v]),
       r.(dataBytesRead := n,
          state := if n >= rec.dataLen || n >= rec.dataBufferSize then Trailing else Data))
    case Trailing =>
      (rec, r)
  }

  /** Buffers as the reader needs them: a destination buffer of at least 255 bytes and a
      declared data size between 1 and the real capacity of the data buffer. */
  predicate Attached(rec: Record)
  {
    |rec.destinationNodes| >= 255 && 1 <= rec.dataBufferSize <= |rec.data|
  }

  /** Number of data bytes the reader consumes: the announced length (at least one) capped
      by the declared buffer size. */
  function DataQuota(rec: Record): (q: nat)
    requires Attached(rec)
    ensures 1 <= q <= rec.dataBufferSize
    ensures q == rec.dataBufferSize || q == rec.dataLen || (q == 1 && rec.dataLen == 0)
    ensures q <= rec.dataLen || q == 1
  {
    var n := if rec.dataLen == 0 then 1 else rec.dataLen;
    if n < rec.dataBufferSize then n else rec.dataBufferSize
  }

  /** The counters agree with the state: every reachable reader cursor satisfies this. */
  predicate ReaderInv(rec: Record, r: ReaderCursor)
    requires Attached(rec)
  {
    match r.state
    case ProtocolVersion => r == ReaderStart
    case Crc =>
      r.crcBytesRead < 4 && r.destinationNodesRead == 0 && r.dataLengthBytesRead == 0 && r.dataBytesRead == 0
    case DstLen =>
      r.crcBytesRead == 4 && r.destinationNodesRead == 0 && r.dataLengthBytesRead == 0 && r.dataBytesRead == 0
    case Dst =>
      && r.crcBytesRead == 4 && r.destinationNodesRead < DestinationSpan(rec)
      && r.dataLengthBytesRead == 0 && r.dataBytesRead == 0
    case DataLen =>
      && r.crcBytesRead == 4 && r.destinationNodesRead == DestinationSpan(rec)
      && r.dataLengthBytesRead < 4 && r.dataBytesRead == 0
    case Data =>
      && r.crcBytesRead == 4 && r.destinationNodesRead == DestinationSpan(rec)
      && r.dataLengthBytesRead == 4 && r.dataBytesRead < DataQuota(rec)
    case Trailing =>
      && r.crcBytesRead == 4 && r.destinationNodesRead == DestinationSpan(rec)
      && r.dataLengthBytesRead == 4 && r.dataBytesRead == DataQuota(rec)
  }

  /** `can_datagram_is_complete` (can_datagram.c:97-100): the reader has reached the last
      state in wire order. */
  function IsComplete(r: ReaderCursor): (complete: bool)
    ensures complete <==> forall s: State :: Rank(s) <= Rank(r.state)
  {
    assert Rank(Trailing) == 6;
    r.state == Trailing
  }

  /** Number of wire bytes a reachable cursor has consumed. */
  function ReaderPos(rec: Record, r: ReaderCursor): nat
    requires Attached(rec)
  {
    match r.state
    case ProtocolVersion => 0
    case Crc => 1 + r.crcBytesRead
    case DstLen => 5
    case Dst => 6 + r.destinationNodesRead
    case DataLen => 6 + DestinationSpan(rec) + r.dataLengthBytesRead
    case Data => 10 + DestinationSpan(rec) + r.dataBytesRead
    case Trailing => 10 + DestinationSpan(rec) + DataQuota(rec)
  }

  /** From a reachable cursor every write is in bounds (in particular every data index written
      is below the declared buffer size), and the next cursor is reachable again. */
  lemma ReadStepKeepsInv(rec: Record, r: ReaderCursor, v: uint8)
    requires Attached(rec) && ReaderInv(rec, r)
    ensures InBounds(rec, r)
    ensures r.state == Data ==> r.dataBytesRead < rec.dataBufferSize
    ensures Attached(ReadStep(rec, r, v).0)
    ensures ReaderInv(ReadStep(rec, r, v).0, ReadStep(rec, r, v).1)
    ensures r.state != Trailing ==>
      ReaderPos(ReadStep(rec, r, v).0, ReadStep(rec, r, v).1) == ReaderPos(rec, r) + 1
  {
    var res := ReadStep(rec, r, v);
    match r.state
    case ProtocolVersion => assert Attached(res.0) && ReaderInv(res.0, res.1);
    case Crc => assert Attached(res.0) && ReaderInv(res.0, res.1);
    case DstLen => assert Attached(res.0) && ReaderInv(res.0, res.1);
    case Dst => assert Attached(res.0) && ReaderInv(res.0, res.1);
    case DataLen => assert Attached(res.0) && ReaderInv(res.0, res.1);
    case Data => assert Attached(res.0) && ReaderInv(res.0, res.1);
    case Trailing => assert Attached(res.0) && ReaderInv(res.0, res.1);
  }

  /** Feeding a stream of bytes, one `can_datagram_input_byte` call per byte. */
  function Feed(rec: Record, r: ReaderCursor, bytes: seq<uint8>): (res: (Record, ReaderCursor))
    requires Attached(rec) && ReaderInv(rec, r)
    ensures Attached(res.0) && ReaderInv(res.0, res.1)
    ensures Rank(res.1.state) >= Rank(r.state)
    ensures ReaderPos(res.0, res.1) <= ReaderPos(rec, r) + |bytes|
    ensures res.1.state != Trailing ==> ReaderPos(res.0, res.1) == ReaderPos(rec, r) + |bytes|
    decreases |bytes|
  {
    if bytes == [] then (rec, r)
    else
      ReadStepKeepsInv(rec, r, bytes[0]);
      var (rec1, r1) := ReadStep(rec, r, bytes[0]);
      Feed(rec1, r1, bytes[1..])
  }

  /** Feeding a concatenation is feeding its parts one after the other. */
  lemma {:induction false} FeedAppend(rec: Record, r: ReaderCursor, a: seq<uint8>, b: seq<uint8>)
    requires Attached(rec) && ReaderInv(rec, r)
    ensures Feed(rec, r, a + b) == Feed(Feed(rec, r, a).0, Feed(rec, r, a).1, b)
    decreases |a|
  {
    if a != [] {
      assert (a + b)[0] == a[0];
      ReadStepKeepsInv(rec, r, a[0]);
      var (rec1, r1) := ReadStep(rec, r, a[0]);
      assert (a + b)[1..] == a[1..] + b;
      FeedAppend(rec1, r1, a[1..], b);
    } else {
      assert a + b == b;
    }
  }

  /** Feeding one byte and then a stream. */
  lemma FeedCons(rec: Record, r: ReaderCursor, v: uint8, rest: seq<uint8>)
    requires Attached(rec) && ReaderInv(rec, r)
    ensures InBounds(rec, r)
    ensures Feed(rec, r, [v] + rest) == Feed(ReadStep(rec, r, v).0, ReadStep(rec, r, v).1, rest)
  {
    ReadStepKeepsInv(rec, r, v);
    assert ([v] + rest)[0] == v && ([v] + rest)[1..] == rest;
  }

  /** TRAILING is absorbing: bytes fed after completion change nothing (can_datagram.c:91-93). */
  lemma {:induction false} FeedTrailing(rec: Record, r: ReaderCursor, bytes: seq<uint8>)
    requires Attached(rec) && ReaderInv(rec, r) && r.state == Trailing
    ensures Feed(rec, r, bytes) == (rec, r)
    decreases |bytes|
  {
    if bytes != [] {
      FeedTrailing(rec, r, bytes[1..]);
    }
  }

  /** A started reader takes the version byte and the four CRC bytes: `crc` is then their
      big-endian value whatever the record held before (the start seed is shifted out). */
  lemma HeaderParse(rec: Record, v: uint8, w: seq<uint8>)
    requires Attached(rec) && |w| == 4
    ensures Feed(Restart(rec), ReaderStart, [v] + w)
         == (Restart(rec).(protocolVersion := v, crc := BigEndianValue(w)),
             ReaderStart.(state := DstLen, crcBytesRead := 4))
  {
    var rec0 := Restart(rec);
    FeedCons(rec0, ReaderStart, v, w);
    var (rec1, r1) := ReadStep(rec0, ReaderStart, v);
    FeedFourBytes(rec1, r1, w);
  }

  /** Four bytes fed at the start of CRC or DATA_LEN make that field their big-endian value,
      whatever it held before, and move the reader to the next state. */
  lemma FeedFourBytes(rec: Record, r: ReaderCursor, w: seq<uint8>)
    requires Attached(rec) && ReaderInv(rec, r) && |w| == 4
    requires (r.state == Crc && r.crcBytesRead == 0) || (r.state == DataLen && r.dataLengthBytesRead == 0)
    ensures r.state == Crc ==>
      Feed(rec, r, w) == (rec.(crc := BigEndianValue(w)), r.(state := DstLen, crcBytesRead := 4))
    ensures r.state == DataLen ==>
      Feed(rec, r, w) == (rec.(dataLen := BigEndianValue(w)), r.(state := Data, dataLengthBytesRead := 4))
  {
    assert w == [w[0]] + ([w[1]] + ([w[2]] + ([w[3]] + [])));
    FeedCons(rec, r, w[0], w[1..]);
    var (rec1, r1) := ReadStep(rec, r, w[0]);
    ReadStepKeepsInv(rec, r, w[0]);
    FeedCons(rec1, r1, w[1], w[2..]);
    var (rec2, r2) := ReadStep(rec1, r1, w[1]);
    ReadStepKeepsInv(rec1, r1, w[1]);
    FeedCons(rec2, r2, w[2], w[3..]);
    var (rec3, r3) := ReadStep(rec2, r2, w[2]);
    ReadStepKeepsInv(rec2, r2, w[2]);
    FeedCons(rec3, r3, w[3], []);
    assert w[1..] == [w[1]] + w[2..] && w[2..] == [w[2]] + w[3..] && w[3..] == [w[3]] + [];
    if r.state == Crc {
      ShiftInFourBytes(rec.crc, w);
    } else {
      ShiftInFourBytes(rec.dataLen, w);
    }
  }

  /** In DST the reader stores the bytes it is fed at the cursor, one after the other, and
      moves to DATA_LEN exactly when DestinationSpan bytes have been stored. */
  lemma {:induction false} FeedDestinations(rec: Record, r: ReaderCursor, s: seq<uint8>)
    requires Attached(rec) && ReaderInv(rec, r) && r.state == Dst
    requires r.destinationNodesRead + |s| <= DestinationSpan(rec)
    ensures var k := r.destinationNodesRead;
      Feed(rec, r, s)
        == (rec.(destinationNodes := rec.destinationNodes[..k] + s + rec.destinationNodes[k + |s|..]),
            r.(destinationNodesRead := k + |s|,
               state := if k + |s| == DestinationSpan(rec) then DataLen else Dst))
    decreases |s|
  {
    var k := r.destinationNodesRead;
    if s == [] {
      assert rec.destinationNodes[..k] + s + rec.destinationNodes[k..] == rec.destinationNodes;
    } else {
      ReadStepKeepsInv(rec, r, s[0]);
      var (rec1, r1) := ReadStep(rec, r, s[0]);
      if r1.state == Dst {
        FeedDestinations(rec1, r1, s[1..]);
      }
      Splice(rec.destinationNodes, k, s);
    }
  }

  /** In DATA the reader stores the bytes it is fed at the cursor, one after the other, and
      moves to TRAILING exactly when DataQuota bytes have been stored: never past the
      declared buffer size, however long the announced data. */
  lemma {:induction false} FeedData(rec: Record, r: ReaderCursor, s: seq<uint8>)
    requires Attached(rec) && ReaderInv(rec, r) && r.state == Data
    requires r.dataBytesRead + |s| <= DataQuota(rec)
    ensures var k := r.dataBytesRead;
      Feed(rec, r, s)
        == (rec.(data := rec.data[..k] + s + rec.data[k + |s|..]),
            r.(dataBytesRead := k + |s|,
               state := if k + |s| == DataQuota(rec) then Trailing else Data))
    decreases |s|
  {
    var k := r.dataBytesRead;
    if s == [] {
      assert rec.data[..k] + s + rec.data[k..] == rec.data;
    } else {
      ReadStepKeepsInv(rec, r, s[0]);
      var (rec1, r1) := ReadStep(rec, r, s[0]);
      assert DataQuota(rec1) == DataQuota(rec);
      if r1.state == Data {
        FeedData(rec1, r1, s[1..]);
      }
      Splice(rec.data, k, s);
    }
  }

  /** Overflow handling: from the start of DATA, a stream at least DataQuota bytes long leaves
      the reader in TRAILING with exactly its first DataQuota bytes stored at the front of the
      buffer and the rest of the buffer untouched; the surplus bytes are dropped. */
  lemma DataTruncation(rec: Record, r: ReaderCursor, s: seq<uint8>)
    requires Attached(rec) && ReaderInv(rec, r) && r.state == Data && r.dataBytesRead == 0
    requires |s| >= DataQuota(rec)
    ensures var q := DataQuota(rec);
      Feed(rec, r, s)
        == (rec.(data := s[..q] + rec.data[q..]), r.(dataBytesRead := q, state := Trailing))
  {
    var q := DataQuota(rec);
    FeedData(rec, r, s[..q]);
    SpliceAtFront(rec.data, s[..q]);
    FeedPastCompletion(rec, r, s[..q], s[q..]);
    SplitAt(s, q);
  }

  /** Once a stream has completed the reader, appending more bytes to it changes nothing. */
  lemma FeedPastCompletion(rec: Record, r: ReaderCursor, a: seq<uint8>, b: seq<uint8>)
    requires Attached(rec) && ReaderInv(rec, r)
    requires Feed(rec, r, a).1.state == Trailing
    ensures Feed(rec, r, a + b) == Feed(rec, r, a)
  {
    FeedAppend(rec, r, a, b);
    FeedTrailing(Feed(rec, r, a).0, Feed(rec, r, a).1, b);
  }

  /** Before DataQuota data bytes have arrived the reader is still in DATA: the datagram is
      not complete early. */
  lemma DataPrefixIncomplete(rec: Record, r: ReaderCursor, s: seq<uint8>)
    requires Attached(rec) && ReaderInv(rec, r) && r.state == Data && r.dataBytesRead == 0
    requires |s| < DataQuota(rec)
    ensures Feed(rec, r, s).1.state == Data
  {
    FeedData(rec, r, s);
  }

  /** The quirks of empty fields: a zero destination count still consumes (and stores) one
      destination byte, and a zero data length still consumes one data byte. */
  lemma ZeroLengthsConsumeOneByte(rec: Record, r: ReaderCursor, v: uint8)
    requires Attached(rec) && ReaderInv(rec, r)
    ensures r.state == Dst && rec.destinationNodesLen == 0 ==>
      Feed(rec, r, [v]) == (rec.(destinationNodes := rec.destinationNodes[0 := v]),
                            r.(destinationNodesRead := 1, state := DataLen))
    ensures r.state == Data && rec.dataLen == 0 ==>
      Feed(rec, r, [v]) == (rec.(data := rec.data[0 := v]), r.(dataBytesRead := 1, state := Trailing))
  {
    if r.state == Dst && rec.destinationNodesLen == 0 {
      FeedDestinations(rec, r, [v]);
      assert rec.destinationNodes[..0] + [v] + rec.destinationNodes[1..] == rec.destinationNodes[0 := v];
    }
    if r.state == Data && rec.dataLen == 0 {
      FeedData(rec, r, [v]);
      assert rec.data[..0] + [v] + rec.data[1..] == rec.data[0 := v];
    }
  }

  /** What a started reader holds after parsing the wire form of src into rec's buffers. */
  function Parsed(src: Record, rec: Record): Record
    requires EncodeFits(src) && Attached(rec) && src.dataLen <= rec.dataBufferSize
  {
    var d, n := DestinationSpan(src), src.dataLen;
    rec.(protocolVersion := src.protocolVersion, crc := src.crc,
         destinationNodesLen := src.destinationNodesLen,
         destinationNodes := src.destinationNodes[..d] + rec.destinationNodes[d..],
         dataLen := src.dataLen, data := src.data[..n] + rec.data[n..])
  }

  /** The first six wire bytes set version, checksum and destination count. */
  lemma ParseHead(src: Record, rec: Record)
    requires EncodeFits(src) && Attached(rec)
    ensures Feed(Restart(rec), ReaderStart, Encode(src)[..6])
         == (rec.(protocolVersion := src.protocolVersion, crc := src.crc,
                  destinationNodesLen := src.destinationNodesLen),
             ReaderCursor(Dst, 4, 0, 0, 0))
  {
    var e := Encode(src);
    var rec0 := Restart(rec);
    FeedAppend(rec0, ReaderStart, e[..5], [e[5]]);
    assert e[..5] + [e[5]] == e[..6];
    assert e[..5] == [e[0]] + e[1..5];
    HeaderParse(rec, e[0], e[1..5]);
    BigEndianValueOfBytes(src.crc);
    var rec1 := rec0.(protocolVersion := src.protocolVersion, crc := src.crc);
    FeedCons(rec1, ReaderStart.(state := DstLen, crcBytesRead := 4), e[5], []);
    assert [e[5]] + [] == [e[5]];
  }

  /** The destination bytes and the data length, parsed from the start of DST. */
  lemma ParseMiddle(rec: Record, s: seq<uint8>, w: seq<uint8>)
    requires Attached(rec) && |s| == DestinationSpan(rec) && |w| == 4
    ensures Feed(rec, ReaderCursor(Dst, 4, 0, 0, 0), s + w)
         == (rec.(destinationNodes := s + rec.destinationNodes[|s|..], dataLen := BigEndianValue(w)),
             ReaderCursor(Data, 4, |s|, 4, 0))
  {
    var r3, r4 := ReaderCursor(Dst, 4, 0, 0, 0), ReaderCursor(DataLen, 4, |s|, 0, 0);
    var rec4 := rec.(destinationNodes := s + rec.destinationNodes[|s|..]);
    FeedAppend(rec, r3, s, w);
    FeedDestinations(rec, r3, s);
    SpliceAtFront(rec.destinationNodes, s);
    assert Feed(rec, r3, s) == (rec4, r4);
    FeedFourBytes(rec4, r4, w);
  }

  /** The record after the header of src's wire form: version, checksum and count. */
  function HeadParsed(src: Record, rec: Record): Record
  {
    rec.(protocolVersion := src.protocolVersion, crc := src.crc,
         destinationNodesLen := src.destinationNodesLen)
  }

  /** The record after the destinations and the data length of src's wire form as well. */
  function MiddleParsed(src: Record, rec: Record): Record
    requires EncodeFits(src) && Attached(rec)
  {
    var d := DestinationSpan(src);
    HeadParsed(src, rec).(destinationNodes := src.destinationNodes[..d] + rec.destinationNodes[d..],
                          dataLen := src.dataLen)
  }

  /** The first stage of the round trip: the header. */
  lemma RoundTripHead(src: Record, rec: Record)
    requires EncodeFits(src) && Attached(rec)
    ensures Feed(Restart(rec), ReaderStart, Encode(src))
         == Feed(HeadParsed(src, rec), ReaderCursor(Dst, 4, 0, 0, 0), Encode(src)[6..])
  {
    var e := Encode(src);
    FeedAppend(Restart(rec), ReaderStart, e[..6], e[6..]);
    SplitAt(e, 6);
    ParseHead(src, rec);
  }

  /** The second stage of the round trip: the destinations and the data length. */
  lemma RoundTripMiddle(src: Record, rec: Record)
    requires EncodeFits(src) && Attached(rec)
    ensures var d := DestinationSpan(src);
      Feed(HeadParsed(src, rec), ReaderCursor(Dst, 4, 0, 0, 0), Encode(src)[6..])
        == Feed(MiddleParsed(src, rec), ReaderCursor(Data, 4, d, 4, 0), Encode(src)[10 + d..])
  {
    var e, d := Encode(src), DestinationSpan(src);
    var rec3, r3 := HeadParsed(src, rec), ReaderCursor(Dst, 4, 0, 0, 0);
    var dst, len, tail := e[6..6 + d], e[6 + d..10 + d], e[10 + d..];
    EncodeFields(src);
    assert e[6..] == dst + len + tail;
    FeedAppend(rec3, r3, dst + len, tail);
    ParseMiddle(rec3, dst, len);
    BigEndianValueOfBytes(src.dataLen);
  }

  /** The last stage of the round trip: the data. */
  lemma RoundTripData(src: Record, rec: Record)
    requires EncodeFits(src) && Attached(rec)
    requires 1 <= src.dataLen <= rec.dataBufferSize
    ensures var d := DestinationSpan(src);
      Feed(MiddleParsed(src, rec), ReaderCursor(Data, 4, d, 4, 0), Encode(src)[10 + d..])
        == (Parsed(src, rec), ReaderCursor(Trailing, 4, d, 4, src.dataLen))
  {
    var e, d := Encode(src), DestinationSpan(src);
    var rec5 := MiddleParsed(src, rec);
    EncodeFields(src);
    assert DataQuota(rec5) == src.dataLen;
    FeedData(rec5, ReaderCursor(Data, 4, d, 4, 0), e[10 + d..]);
    SpliceAtFront(rec5.data, e[10 + d..]);
  }

  /** Round trip: when the announced data fits the declared buffer and is not empty, the wire
      form of a datagram, fed to a started reader, reproduces all its fields and both buffer
      prefixes, and completes the reader at its last byte. */
  lemma RoundTrip(src: Record, rec: Record)
    requires EncodeFits(src) && Attached(rec)
    requires 1 <= src.dataLen <= rec.dataBufferSize
    ensures Feed(Restart(rec), ReaderStart, Encode(src))
         == (Parsed(src, rec), ReaderCursor(Trailing, 4, DestinationSpan(src), 4, src.dataLen))
    ensures ReaderPos(Parsed(src, rec), ReaderCursor(Trailing, 4, DestinationSpan(src), 4, src.dataLen))
         == |Encode(src)|
  {
    RoundTripHead(src, rec);
    RoundTripMiddle(src, rec);
    RoundTripData(src, rec);
  }

  /** The reader completes exactly at the last byte of the wire form: the datagram is not
      complete after any strict prefix of it. */
  lemma RoundTripPrefixIncomplete(src: Record, rec: Record, k: nat)
    requires EncodeFits(src) && Attached(rec)
    requires 1 <= src.dataLen <= rec.dataBufferSize
    requires k < |Encode(src)|
    ensures !IsComplete(Feed(Restart(rec), ReaderStart, Encode(src)[..k]).1)
  {
    var e := Encode(src);
    var rec0 := Restart(rec);
    var (out, r) := Feed(rec0, ReaderStart, e[..k]);
    if r.state == Trailing {
      FeedAppend(rec0, ReaderStart, e[..k], e[k..]);
      SplitAt(e, k);
      FeedTrailing(out, r, e[k..]);
      RoundTrip(src, rec);
      assert false;
    }
  }

  /** With a data length of 0 the writer emits no data bytes, but the reader still waits for
      one: after the whole wire form it is in DATA and the datagram is not complete. */
  lemma EmptyDataNotComplete(src: Record, rec: Record)
    requires EncodeFits(src) && Attached(rec) && src.dataLen == 0
    ensures Feed(Restart(rec), ReaderStart, Encode(src)).1 == ReaderCursor(Data, 4, DestinationSpan(src), 4, 0)
    ensures !IsComplete(Feed(Restart(rec), ReaderStart, Encode(src)).1)
  {
    var d := DestinationSpan(src);
    var e := Encode(src);
    var rec0 := Restart(rec);
    FeedAppend(rec0, ReaderStart, e[..6], e[6..]);
    SplitAt(e, 6);
    ParseHead(src, rec);
    var rec3 := rec.(protocolVersion := src.protocolVersion, crc := src.crc,
                     destinationNodesLen := src.destinationNodesLen);
    EncodeFields(src);
    assert e[6..] == e[6..6 + d] + e[6 + d..10 + d];
    ParseMiddle(rec3, e[6..6 + d], e[6 + d..10 + d]);
  }

  /** A sequence is its prefix followed by its suffix; a separate lemma keeps this sequence fact
      out of the larger proofs that use it. */
  lemma SplitAt(s: seq<uint8>, q: nat)
    requires q <= |s|
    ensures s[..q] + s[q..] == s
  {
  }

  /** Storing s at the front of d; a separate lemma keeps this sequence fact out of the
      larger proofs that use it. */
  lemma SpliceAtFront(d: seq<uint8>, s: seq<uint8>)
    requires |s| <= |d|
    ensures d[..0] + s + d[|s|..] == s + d[|s|..]
  {
  }

  /** Storing the first byte of s at k, then the rest after it, is storing all of s at k. */
  lemma Splice(d: seq<uint8>, k: nat, s: seq<uint8>)
    requires s != [] && k + |s| <= |d|
    ensures d[k := s[0]][..k + 1] + s[1..] + d[k := s[0]][k + |s|..] == d[..k] + s + d[k + |s|..]
    ensures |s| == 1 ==> d[k := s[0]] == d[..k] + s + d[k + 1..]
  {
    assert d[k := s[0]][..k + 1] == d[..k] + [s[0]];
    assert d[k := s[0]][k + |s|..] == d[k + |s|..];
    assert s == [s[0]] + s[1..];
  }
}
