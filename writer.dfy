/** The writer: `can_datagram_output_bytes` (can_datagram.c:119-189) as a one-byte step on a
    writer cursor, and what one call with an output buffer of a given length produces. */
module Writer {
  import opened Wire

  /** The writer's part of `can_datagram_t`: its state and its four byte cursors. */
  datatype WriterCursor = WriterCursor(
    state: State,
    crcBytesWritten: nat,
    destinationNodesWritten: nat,
    dataLengthBytesWritten: nat,
    dataBytesWritten: nat)

  /** The cursor `can_datagram_init` leaves (can_datagram.c:18); nothing else resets it. */
  const WriterStart := WriterCursor(ProtocolVersion, 0, 0, 0, 0)

  /** The cursors agree with the state: every cursor the writer reaches from WriterStart on an
      unchanged record satisfies this. */
  predicate WriterInv(rec: Record, w: WriterCursor)
  {
    match w.state
    case Crc => w.crcBytesWritten < 4
    case Dst => w.destinationNodesWritten < DestinationSpan(rec)
    case DataLen => w.dataLengthBytesWritten < 4
    case Data => w.dataBytesWritten <= rec.dataLen
    case _ => true
  }

  /** Number of wire bytes a cursor has emitted. */
  function WriterPos(rec: Record, w: WriterCursor): nat
  {
    match w.state
    case ProtocolVersion => 0
    case Crc => 1 + w.crcBytesWritten
    case DstLen => 5
    case Dst => 6 + w.destinationNodesWritten
    case DataLen => 6 + DestinationSpan(rec) + w.dataLengthBytesWritten
    case Data => 10 + DestinationSpan(rec) + w.dataBytesWritten
    case Trailing => EncodedLength(rec)
  }

  /** What one iteration of the writer's loop does: emit a byte and move on, or stop. */
  datatype Emission = Byte(b: uint8, next: WriterCursor) | Stop(next: WriterCursor)

  /** One iteration of the loop in `can_datagram_output_bytes`. */
  function WriterStep(rec: Record, w: WriterCursor): (res: Emission)
    requires EncodeFits(rec) && WriterInv(rec, w)
    ensures w.state == Trailing ==> res == Stop(w)
  {
    match w.state
    case ProtocolVersion =>
      Byte(rec.protocolVersion, w.(state := Crc, crcBytesWritten := 0))
    case Crc =>
      var n := w.crcBytesWritten + 1;
      Byte(ByteOf(rec.crc, w.crcBytesWritten),
           w.(crcBytesWritten := n, state := if n >= 4 then DstLen else Crc))
    case DstLen =>
      Byte(rec.destinationNodesLen, w.(state := Dst, destinationNodesWritten := 0))
    case Dst =>
      var n := w.destinationNodesWritten + 1;
      Byte(rec.destinationNodes[w.destinationNodesWritten],
           if n >= rec.destinationNodesLen
           then w.(destinationNodesWritten := n, state := DataLen, dataLengthBytesWritten := 0)
           else w.(destinationNodesWritten := n))
    case DataLen =>
      var n := w.dataLengthBytesWritten + 1;
      Byte(ByteOf(rec.dataLen, w.dataLengthBytesWritten),
           if n >= 4
           then w.(dataLengthBytesWritten := n, state := Data, dataBytesWritten := 0)
           else w.(dataLengthBytesWritten := n))
    case Data =>
      // Once the announced length is out the writer moves to TRAILING and stops (line 167).
      if w.dataBytesWritten >= rec.dataLen then Stop(w.(state := Trailing))
      else Byte(rec.data[w.dataBytesWritten], w.(dataBytesWritten := w.dataBytesWritten + 1))
    case Trailing =>
      Stop(w)
  }

  /** What a writer step emits follows the wire form: every byte is the field byte at the
      cursor's position and advances it by one, and the writer stops only once the whole
      wire form is out, in TRAILING. */
  predicate StepFollowsEncoding(rec: Record, w: WriterCursor, res: Emission)
    requires EncodeFits(rec)
  {
    && WriterInv(rec, res.next)
    && (res.Byte? ==> WriterPos(rec, w) < EncodedLength(rec)
                      && res.b == EncodeAt(rec, WriterPos(rec, w))
                      && WriterPos(rec, res.next) == WriterPos(rec, w) + 1)
    && (res.Stop? ==> WriterPos(rec, w) == EncodedLength(rec)
                      && res.next.state == Trailing
                      && WriterPos(rec, res.next) == WriterPos(rec, w))
  }

  /** Every writer step follows the wire form. */
  lemma WriterStepFollowsEncoding(rec: Record, w: WriterCursor)
    requires EncodeFits(rec) && WriterInv(rec, w)
    ensures StepFollowsEncoding(rec, w, WriterStep(rec, w))
  {
    var res := WriterStep(rec, w);
    match w.state
    case ProtocolVersion =>
      assert StepFollowsEncoding(rec, w, res);
    case Crc =>
      assert StepFollowsEncoding(rec, w, res);
    case DstLen =>
      assert StepFollowsEncoding(rec, w, res);
    case Dst =>
      assert StepFollowsEncoding(rec, w, res);
    case DataLen =>
      assert StepFollowsEncoding(rec, w, res);
    case Data =>
      assert StepFollowsEncoding(rec, w, res);
    case Trailing =>
      assert StepFollowsEncoding(rec, w, res);
  }

  /** One call `can_datagram_output_bytes(dt, buffer, len)`: the bytes it writes to
      buffer[0..n) and the cursor it leaves. It fills the whole buffer unless the datagram
      ends first, and then the writer is in TRAILING; a call in TRAILING writes nothing. */
  function Output(rec: Record, w: WriterCursor, len: nat): (res: (seq<uint8>, WriterCursor))
    requires EncodeFits(rec) && WriterInv(rec, w)
    ensures WriterInv(rec, res.1)
    ensures |res.0| <= len
    ensures |res.0| < len ==> res.1.state == Trailing
    ensures w.state == Trailing ==> res == ([], w)
    decreases len
  {
    if len == 0 then ([], w)
    else
      WriterStepFollowsEncoding(rec, w);
      match WriterStep(rec, w)
      case Stop(w1) => ([], w1)
      case Byte(b, w1) =>
        var (rest, w2) := Output(rec, w1, len - 1);
        ([b] + rest, w2)
  }

  /** One more loop iteration: a call with room left either stops at once or emits the step's
      byte followed by what a call with one byte less room emits from the next cursor. */
  lemma OutputUnfold(rec: Record, w: WriterCursor, len: nat)
    requires EncodeFits(rec) && WriterInv(rec, w) && len > 0
    ensures WriterStep(rec, w).Stop? ==> Output(rec, w, len) == ([], WriterStep(rec, w).next)
    ensures WriterStep(rec, w).Byte? ==>
      WriterInv(rec, WriterStep(rec, w).next)
      && Output(rec, w, len).0 == [WriterStep(rec, w).b] + Output(rec, WriterStep(rec, w).next, len - 1).0
      && Output(rec, w, len).1 == Output(rec, WriterStep(rec, w).next, len - 1).1
  {
    WriterStepFollowsEncoding(rec, w);
  }

  /** A loop over a buffer of length len, having written `written` and reached cursor w with
      rem bytes of room left, is on track for one call: what it has written followed by what
      a call with the remaining room emits is what one call emits. */
  predicate OnTrack(rec: Record, w0: WriterCursor, len: nat, written: seq<uint8>, w: WriterCursor, rem: nat)
    requires EncodeFits(rec) && WriterInv(rec, w0) && WriterInv(rec, w)
  {
    (written + Output(rec, w, rem).0, Output(rec, w, rem).1) == Output(rec, w0, len)
  }

  /** One more iteration keeps the loop on track. */
  lemma OnTrackStep(rec: Record, w0: WriterCursor, len: nat, written: seq<uint8>, w: WriterCursor, rem: nat)
    requires EncodeFits(rec) && WriterInv(rec, w0) && WriterInv(rec, w) && rem > 0
    requires OnTrack(rec, w0, len, written, w, rem)
    ensures WriterInv(rec, WriterStep(rec, w).next)
    ensures WriterStep(rec, w).Stop? ==> Output(rec, w0, len) == (written, WriterStep(rec, w).next)
    ensures WriterStep(rec, w).Byte? ==>
      OnTrack(rec, w0, len, written + [WriterStep(rec, w).b], WriterStep(rec, w).next, rem - 1)
  {
    OutputUnfold(rec, w, rem);
    match WriterStep(rec, w)
    case Stop(w1) =>
      assert written + Output(rec, w, rem).0 == written;
    case Byte(b, w1) =>
      assert written + [b] + Output(rec, w1, rem - 1).0 == written + Output(rec, w, rem).0;
  }

  /** The bytes of one call are the next ones of the wire form, from the cursor's position
      on, and the cursor advances past them. */
  lemma OutputFollowsEncoding(rec: Record, w: WriterCursor, len: nat)
    requires EncodeFits(rec) && WriterInv(rec, w)
    ensures var (out, w') := Output(rec, w, len);
      && WriterPos(rec, w) + |out| <= EncodedLength(rec)
      && out == Encode(rec)[WriterPos(rec, w)..WriterPos(rec, w) + |out|]
      && WriterPos(rec, w') == WriterPos(rec, w) + |out|
  {
    EncodeBytes(rec);
    OutputFollowsBytes(rec, Encode(rec), w, len);
  }

  /** OutputFollowsEncoding for any sequence holding the field bytes, by induction on the
      room left. */
  lemma {:induction false} OutputFollowsBytes(rec: Record, e: seq<uint8>, w: WriterCursor, len: nat)
    requires EncodeFits(rec) && WriterInv(rec, w)
    requires |e| == EncodedLength(rec) && forall i :: 0 <= i < |e| ==> e[i] == EncodeAt(rec, i)
    ensures var (out, w') := Output(rec, w, len);
      && WriterPos(rec, w) + |out| <= |e|
      && out == e[WriterPos(rec, w)..WriterPos(rec, w) + |out|]
      && WriterPos(rec, w') == WriterPos(rec, w) + |out|
    decreases len
  {
    if len > 0 {
      WriterStepFollowsEncoding(rec, w);
      match WriterStep(rec, w)
      case Stop(w1) =>
      case Byte(b, w1) =>
        OutputFollowsBytes(rec, e, w1, len - 1);
        OutputUnfold(rec, w, len);
        var rest := Output(rec, w1, len - 1).0;
        SliceCons(e, WriterPos(rec, w), b, rest);
    }
  }

  /** Splitting a call's buffer in two changes nothing: the two calls together write the same
      bytes and leave the same cursor as one call with the whole length. */
  lemma OutputSplit(rec: Record, w: WriterCursor, a: nat, b: nat)
    requires EncodeFits(rec) && WriterInv(rec, w)
    ensures Output(rec, w, a).0 + Output(rec, Output(rec, w, a).1, b).0 == Output(rec, w, a + b).0
    ensures Output(rec, Output(rec, w, a).1, b).1 == Output(rec, w, a + b).1
  {
    OutputSplitBytes(rec, w, a, b);
    OutputSplitCursor(rec, w, a, b);
  }

  /** The bytes half of OutputSplit, by induction on the first length. */
  lemma {:induction false} OutputSplitBytes(rec: Record, w: WriterCursor, a: nat, b: nat)
    requires EncodeFits(rec) && WriterInv(rec, w)
    ensures Output(rec, w, a).0 + Output(rec, Output(rec, w, a).1, b).0 == Output(rec, w, a + b).0
    decreases a
  {
    if a > 0 {
      WriterStepFollowsEncoding(rec, w);
      match WriterStep(rec, w)
      case Stop(w1) =>
      case Byte(x, w1) =>
        OutputSplitBytes(rec, w1, a - 1, b);
        OutputUnfold(rec, w, a);
        OutputUnfold(rec, w, a + b);
        assert a + b - 1 == (a - 1) + b;
    }
  }

  /** The cursor half of OutputSplit, by induction on the first length. */
  lemma {:induction false} OutputSplitCursor(rec: Record, w: WriterCursor, a: nat, b: nat)
    requires EncodeFits(rec) && WriterInv(rec, w)
    ensures Output(rec, Output(rec, w, a).1, b).1 == Output(rec, w, a + b).1
    decreases a
  {
    if a > 0 {
      WriterStepFollowsEncoding(rec, w);
      match WriterStep(rec, w)
      case Stop(w1) =>
      case Byte(x, w1) =>
        OutputSplitCursor(rec, w1, a - 1, b);
        OutputUnfold(rec, w, a);
        OutputUnfold(rec, w, a + b);
        assert a + b - 1 == (a - 1) + b;
    }
  }

  /** From its initial cursor the writer emits exactly the wire form: any output buffer with
      room for more than the whole datagram receives all of it and leaves the writer in
      TRAILING. */
  lemma WholeDatagram(rec: Record, len: nat)
    requires EncodeFits(rec)
    requires len > EncodedLength(rec)
    ensures Output(rec, WriterStart, len).0 == Encode(rec)
    ensures Output(rec, WriterStart, len).1.state == Trailing
  {
    OutputFollowsEncoding(rec, WriterStart, len);
    var e := Encode(rec);
    assert e[0..|e|] == e;
  }

  lemma SliceCons(e: seq<uint8>, p: nat, b: uint8, rest: seq<uint8>)
    requires p + 1 + |rest| <= |e| && b == e[p] && rest == e[p + 1..p + 1 + |rest|]
    ensures [b] + rest == e[p..p + 1 + |rest|]
  {
    assert e[p..p + 1 + |rest|] == [e[p]] + e[p + 1..p + 1 + |rest|];
  }
}
