/** The writer and the reader together: what one datagram's writer output does to a reader,
    however the output is cut into `can_datagram_output_bytes` calls. */
module Transfer {
  import opened Wire
  import opened Reader
  import opened Writer
  import opened Checks

  /** Feeding a reader the bytes of two successive writer calls, with room a and then b,
      leaves it where feeding the bytes of one call with room a + b does. */
  lemma ChunkedTransfer(src: Record, w: WriterCursor, rec: Record, r: ReaderCursor, a: nat, b: nat)
    requires EncodeFits(src) && WriterInv(src, w)
    requires Attached(rec) && ReaderInv(rec, r)
    ensures var (first, w1) := Output(src, w, a);
      var (rec1, r1) := Feed(rec, r, first);
      Feed(rec1, r1, Output(src, w1, b).0) == Feed(rec, r, Output(src, w, a + b).0)
  {
    OutputSplit(src, w, a, b);
    var (first, w1) := Output(src, w, a);
    FeedAppend(rec, r, first, Output(src, w1, b).0);
  }

  /** A fresh writer's output, given room for the whole datagram, completes a started reader
      exactly at its last byte when the data is not empty and fits the declared buffer and reproduces every field; when the
      datagram carries its own checksum and the supported version, it is valid on arrival. */
  lemma WriterToReader(crc32: Crc32, src: Record, rec: Record, len: nat)
    requires EncodeFits(src) && Attached(rec)
    requires 1 <= src.dataLen <= rec.dataBufferSize
    requires len > EncodedLength(src)
    ensures var (out, r) := Feed(Restart(rec), ReaderStart, Output(src, WriterStart, len).0);
      && IsComplete(r) && out == Parsed(src, rec)
      && out.protocolVersion == src.protocolVersion && out.crc == src.crc
      && out.destinationNodesLen == src.destinationNodesLen
      && out.destinationNodes[..DestinationSpan(src)] == src.destinationNodes[..DestinationSpan(src)]
      && out.dataLen == src.dataLen && out.data[..src.dataLen] == src.data[..src.dataLen]
    ensures CrcReadable(src) && src.crc == ComputeCrc(crc32, src)
            && src.protocolVersion == CAN_DATAGRAM_VERSION
      ==> var (out, r) := Feed(Restart(rec), ReaderStart, Output(src, WriterStart, len).0);
          CrcReadable(out) && IsValid(crc32, out, r)
  {
    WholeDatagram(src, len);
    RoundTrip(src, rec);
    var out := Parsed(src, rec);
    var d, n := DestinationSpan(src), src.dataLen as int;
    assert out.destinationNodes[..d] == src.destinationNodes[..d];
    assert out.data[..n] == src.data[..n];
    if CrcReadable(src) && src.crc == ComputeCrc(crc32, src) && src.protocolVersion == CAN_DATAGRAM_VERSION {
      StampedDatagramArrivesValid(crc32, src, rec);
    }
  }
}
