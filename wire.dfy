/** The wire format of a CAN datagram and the record the codec fills and drains.

    On the wire a datagram is, with no padding:
      1 byte   protocol version
      4 bytes  checksum, most significant byte first
      1 byte   number L of destination nodes
      L bytes  destination nodes (one byte even when L is 0, see DestinationSpan)
      4 bytes  data length N, most significant byte first
      N bytes  data
 */
module Wire {

  /** An unsigned 8-bit value (`uint8_t`). */
  type uint8 = x: int | 0 <= x < 0x100

  /** An unsigned 32-bit value (`uint32_t`). */
  type uint32 = x: int | 0 <= x < 0x1_0000_0000

  /** Version byte a valid datagram carries. It is defined in `can_datagram.h`, which is not
      part of this model; the value 1 is assumed, and no proof depends on it. */
  const CAN_DATAGRAM_VERSION: uint8 := 1

  /** The states shared by the reader and the writer, in wire order (can_datagram.c:6-14). */
  datatype State = ProtocolVersion | Crc | DstLen | Dst | DataLen | Data | Trailing

  /** Position of a state in wire order; the C enumerator value. */
  function Rank(s: State): nat
  {
    match s
    case ProtocolVersion => 0
    case Crc => 1
    case DstLen => 2
    case Dst => 3
    case DataLen => 4
    case Data => 5
    case Trailing => 6
  }

  /** The payload fields of `can_datagram_t`. The two buffers are the whole caller-supplied
      arrays (their length is the array's real capacity); `dataBufferSize` is the size the
      caller declared with `can_datagram_set_data_buffer`. */
  datatype Record = Record(
    protocolVersion: uint8,
    crc: uint32,
    destinationNodesLen: uint8,
    destinationNodes: seq<uint8>,
    dataLen: uint32,
    data: seq<uint8>,
    dataBufferSize: nat)

  /** How many destination bytes the reader consumes and the writer emits: the declared
      count, except that a count of 0 still takes one byte (can_datagram.c:55-62, 145-153). */
  function DestinationSpan(rec: Record): (d: nat)
    ensures 1 <= d <= 255
    ensures rec.destinationNodesLen != 0 ==> d == rec.destinationNodesLen
    ensures rec.destinationNodesLen == 0 ==> d == 1
  {
    if rec.destinationNodesLen == 0 then 1 else rec.destinationNodesLen
  }

  /** Byte k (0 = most significant) of a 32-bit word: `x >> (24 - 8 * k)` truncated to 8 bits,
      as the writer (can_datagram.c:131, 156) and the checksum (can_datagram.c:199-202) compute it. */
  function ByteOf(x: uint32, k: nat): uint8
    requires k < 4
  {
    if k == 0 then x / 0x100_0000
    else if k == 1 then (x / 0x1_0000) % 0x100
    else if k == 2 then (x / 0x100) % 0x100
    else x % 0x100
  }

  /** ByteOf is the C expression `(x >> (24 - 8 * k)) & 0xff` for every k: a shift right by
      8 * (3 - k) bits divides by 256 to that power, and the mask keeps the remainder by 256. */
  lemma ByteOfIsShiftAndMask(x: uint32, k: nat)
    requires k < 4
    ensures ByteOf(x, k) == x / Pow256(3 - k) % 0x100
  {
    assert Pow256(3) == 0x100_0000 && Pow256(2) == 0x1_0000 && Pow256(1) == 0x100;
    if k == 0 {
      DivMod(x / 0x100_0000, 0x100, 0, x / 0x100_0000);
    }
  }

  /** 256 to the power n: shifting right by 8 * n bits divides by it. */
  function Pow256(n: nat): (p: nat)
    ensures p >= 1
  {
    if n == 0 then 1 else 0x100 * Pow256(n - 1)
  }

  /** The four bytes of a word, most significant first. */
  function BigEndian(x: uint32): (w: seq<uint8>)
    ensures |w| == 4
  {
    [ByteOf(x, 0), ByteOf(x, 1), ByteOf(x, 2), ByteOf(x, 3)]
  }

  /** The word whose big-endian bytes are w: the reference reading of a 4-byte field. */
  function BigEndianValue(w: seq<uint8>): uint32
    requires |w| == 4
  {
    w[0] as int * 0x100_0000 + w[1] as int * 0x1_0000 + w[2] as int * 0x100 + w[3] as int
  }

  /** One reader step on a 4-byte field: `acc = (acc << 8) | b` on a `uint32_t`
      (can_datagram.c:42, 65), the shift dropping the top byte. */
  function ShiftIn(acc: uint32, b: uint8): uint32
  {
    (acc % 0x100_0000) * 0x100 + b
  }

  /** Shifting four bytes into any accumulator leaves their big-endian value: the previous
      contents are shifted out entirely. */
  lemma ShiftInFourBytes(acc: uint32, w: seq<uint8>)
    requires |w| == 4
    ensures ShiftIn(ShiftIn(ShiftIn(ShiftIn(acc, w[0]), w[1]), w[2]), w[3]) == BigEndianValue(w)
  {
    var m := acc % 0x100_0000;
    var t0, low0 := m / 0x1_0000, m % 0x1_0000;
    var a1 := ShiftIn(acc, w[0]);
    ShiftInLow(acc, w[0], t0, low0);
    var low1 := low0 % 0x100 * 0x100 + w[0];
    var a2 := ShiftIn(a1, w[1]);
    ShiftInLow(a1, w[1], low0 / 0x100, low1);
    var low2 := low1 % 0x100 * 0x100 + w[1];
    assert low1 % 0x100 == w[0];
    var a3 := ShiftIn(a2, w[2]);
    ShiftInLow(a2, w[2], low1 / 0x100, low2);
  }

  /** A shift moves the low three bytes of the accumulator up by one byte, dropping the top
      one, and puts the new byte under them. */
  lemma ShiftInLow(acc: uint32, b: uint8, t: nat, low: nat)
    requires t < 0x100 && low < 0x1_0000 && acc % 0x100_0000 == t * 0x1_0000 + low
    ensures ShiftIn(acc, b) % 0x100_0000 == low * 0x100 + b
    ensures ShiftIn(acc, b) % 0x100_0000 == low / 0x100 * 0x1_0000 + (low % 0x100 * 0x100 + b)
  {
    var x := ShiftIn(acc, b);
    assert x == t * 0x100_0000 + (low * 0x100 + b);
    DivMod(x, 0x100_0000, t, low * 0x100 + b);
    assert low == low / 0x100 * 0x100 + low % 0x100;
  }

  /** Quotient and remainder by a positive base are determined by any decomposition
      x == q * base + r with 0 <= r < base. */
  lemma DivMod(x: int, base: int, q: int, r: int)
    requires 0 < base && 0 <= r < base && x == q * base + r
    ensures x / base == q && x % base == r
  {
    var k, m := x / base, x % base;
    assert x == k * base + m;
    assert (k - q) * base == r - m;
    MultipleBelowBase(k - q, base);
  }

  /** The only multiple of a positive base strictly between -base and base is 0. */
  lemma MultipleBelowBase(a: int, base: int)
    requires 0 < base && -base < a * base < base
    ensures a == 0
  {
    if a != 0 {
      var n := if a < 0 then -a else a;
      assert n * base == (if a < 0 then -(a * base) else a * base);
      AtLeastBase(n, base);
      assert false;
    }
  }

  /** A positive multiple of a base is at least the base. */
  lemma {:induction false} AtLeastBase(n: nat, base: nat)
    requires n >= 1
    ensures n * base >= base
    decreases n
  {
    if n > 1 {
      AtLeastBase(n - 1, base);
      assert n * base == (n - 1) * base + base;
    }
  }

  /** Reading back the bytes of a word gives the word. */
  lemma BigEndianValueOfBytes(x: uint32)
    ensures BigEndianValue(BigEndian(x)) == x
  {
    var q1, q2, q3 := x / 0x100, x / 0x1_0000, x / 0x100_0000;
    assert x == q1 * 0x100 + ByteOf(x, 3);
    assert q1 == q2 * 0x100 + ByteOf(x, 2);
    assert q2 == q3 * 0x100 + ByteOf(x, 1);
  }

  /** The bytes of the value of four bytes are those bytes. */
  lemma BigEndianBytesOfValue(w: seq<uint8>)
    requires |w| == 4
    ensures BigEndian(BigEndianValue(w)) == w
  {
    var v := BigEndianValue(w);
    var hi, mid := w[0] as int * 0x100 + w[1], w[2] as int * 0x100 + w[3];
    DivMod(v, 0x100_0000, w[0], w[1] as int * 0x1_0000 + mid);
    DivMod(v, 0x1_0000, hi, mid);
    DivMod(hi, 0x100, w[0], w[1]);
    DivMod(v, 0x100, hi * 0x100 + w[2], w[3]);
    DivMod(hi * 0x100 + w[2], 0x100, hi, w[2]);
  }

  /** The buffers hold every byte the wire format takes from them. */
  predicate EncodeFits(rec: Record)
  {
    DestinationSpan(rec) <= |rec.destinationNodes| && rec.dataLen <= |rec.data|
  }

  /** Number of bytes of the wire form of a record. */
  function EncodedLength(rec: Record): nat
  {
    10 + DestinationSpan(rec) + rec.dataLen
  }

  /** The wire byte at position i, field by field. */
  function EncodeAt(rec: Record, i: nat): uint8
    requires EncodeFits(rec) && i < EncodedLength(rec)
  {
    var d := DestinationSpan(rec);
    if i == 0 then rec.protocolVersion
    else if i < 5 then ByteOf(rec.crc, i - 1)
    else if i == 5 then rec.destinationNodesLen
    else if i < 6 + d then rec.destinationNodes[i - 6]
    else if i < 10 + d then ByteOf(rec.dataLen, i - 6 - d)
    else rec.data[i - 10 - d]
  }

  /** The wire form of a record: what the writer emits for it, and what the reader parses. */
  function Encode(rec: Record): (e: seq<uint8>)
    requires EncodeFits(rec)
    ensures |e| == EncodedLength(rec)
  {
    [rec.protocolVersion] + BigEndian(rec.crc) + [rec.destinationNodesLen]
      + rec.destinationNodes[..DestinationSpan(rec)] + BigEndian(rec.dataLen)
      + rec.data[..rec.dataLen]
  }

  /** The wire form byte by byte: the byte at position i is the field byte EncodeAt names. */
  lemma EncodeBytes(rec: Record)
    requires EncodeFits(rec)
    ensures forall i :: 0 <= i < EncodedLength(rec) ==> Encode(rec)[i] == EncodeAt(rec, i)
  {
  }

  /** The wire form field by field, as slices. */
  lemma EncodeFields(rec: Record)
    requires EncodeFits(rec)
    ensures var e, d := Encode(rec), DestinationSpan(rec);
      && e[0] == rec.protocolVersion && e[5] == rec.destinationNodesLen
      && e[1..5] == BigEndian(rec.crc)
      && e[6..6 + d] == rec.destinationNodes[..d]
      && e[6 + d..10 + d] == BigEndian(rec.dataLen)
      && e[10 + d..] == rec.data[..rec.dataLen]
  {
    var e, d := Encode(rec), DestinationSpan(rec);
    assert e[1..5] == BigEndian(rec.crc);
    assert e[6..6 + d] == rec.destinationNodes[..d];
    assert e[6 + d..10 + d] == BigEndian(rec.dataLen);
    assert e[10 + d..] == rec.data[..rec.dataLen];
  }

  /** A suffix of a sequence cut into consecutive pieces. */
  lemma SuffixPieces(e: seq<uint8>, i: nat, j: nat, k: nat, l: nat)
    requires i <= j <= k <= l <= |e|
    ensures e[i..] == e[i..j] + e[j..k] + e[k..l] + e[l..]
  {
    assert e[k..] == e[k..l] + e[l..];
    assert e[j..] == e[j..k] + e[k..];
    assert e[i..] == e[i..j] + e[j..];
  }
}
