/** `can_datagram_t` and the functions of can_datagram.c that update it in place: a class whose
    fields are the struct's, whose two buffers are caller-supplied arrays, and whose methods
    are proved against the step functions of the Reader and Writer modules. */
module CanDatagram {
  import opened Wire
  import opened Reader
  import opened Writer

  class Datagram {
    var protocolVersion: uint8
    var crc: uint32
    var destinationNodesLen: uint8
    var destinationNodes: array<uint8>
    var dataLen: uint32
    var data: array<uint8>
    var dataBufferSize: nat

    var readerState: State
    var crcBytesRead: nat
    var destinationNodesRead: nat
    var dataLengthBytesRead: nat
    var dataBytesRead: nat

    var writerState: State
    var crcBytesWritten: nat
    var destinationNodesWritten: nat
    var dataLengthBytesWritten: nat
    var dataBytesWritten: nat

    /** The payload fields and the current contents of both buffers. */
    function Fields(): Record
      reads this, destinationNodes, data
    {
      Record(protocolVersion, crc, destinationNodesLen, destinationNodes[..], dataLen, data[..],
             dataBufferSize)
    }

    /** The reader's state and counters. */
    function ReadCursor(): ReaderCursor
      reads this
    {
      ReaderCursor(readerState, crcBytesRead, destinationNodesRead, dataLengthBytesRead, dataBytesRead)
    }

    /** The writer's state and cursors. */
    function WriteCursor(): WriterCursor
      reads this
    {
      WriterCursor(writerState, crcBytesWritten, destinationNodesWritten, dataLengthBytesWritten,
                   dataBytesWritten)
    }

    /** `can_datagram_init`: everything zero except the version; no buffers are attached yet
        (empty arrays stand for the null pointers). */
    constructor Init()
      ensures Fields() == Record(CAN_DATAGRAM_VERSION, 0, 0, [], 0, [], 0)
      ensures ReadCursor() == ReaderStart && WriteCursor() == WriterStart
    {
      protocolVersion := CAN_DATAGRAM_VERSION;
      crc := 0;
      destinationNodesLen := 0;
      destinationNodes := new uint8[0];
      dataLen := 0;
      data := new uint8[0];
      dataBufferSize := 0;
      readerState, crcBytesRead, destinationNodesRead, dataLengthBytesRead, dataBytesRead :=
        ProtocolVersion, 0, 0, 0, 0;
      writerState, crcBytesWritten, destinationNodesWritten, dataLengthBytesWritten, dataBytesWritten :=
        ProtocolVersion, 0, 0, 0, 0;
    }

    /** `can_datagram_set_address_buffer`: attach the destination buffer; nothing else changes. */
    method SetAddressBuffer(buf: array<uint8>)
      modifies this
      ensures destinationNodes == buf && data == old(data)
      ensures Fields() == old(Fields()).(destinationNodes := buf[..])
      ensures ReadCursor() == old(ReadCursor()) && WriteCursor() == old(WriteCursor())
    {
      destinationNodes := buf;
    }

    /** `can_datagram_set_data_buffer`: attach the data buffer and record its declared size;
        nothing else changes. */
    method SetDataBuffer(buf: array<uint8>, bufSize: nat)
      modifies this
      ensures data == buf && destinationNodes == old(destinationNodes)
      ensures Fields() == old(Fields()).(data := buf[..], dataBufferSize := bufSize)
      ensures ReadCursor() == old(ReadCursor()) && WriteCursor() == old(WriteCursor())
    {
      data := buf;
      dataBufferSize := bufSize;
    }

    /** `can_datagram_start`: rewind the reader and seed the checksum accumulator. */
    method Start()
      modifies this
      ensures destinationNodes == old(destinationNodes) && data == old(data)
      ensures Fields() == Restart(old(Fields()))
      ensures ReadCursor() == ReaderStart && WriteCursor() == old(WriteCursor())
    {
      readerState := ProtocolVersion;
      crc := READER_CRC_SEED;
      crcBytesRead := 0;
      destinationNodesRead := 0;
      dataLengthBytesRead := 0;
      dataBytesRead := 0;
    }

    /** The DST case of `can_datagram_input_byte` (can_datagram.c:55-62): store a destination
        byte and move on to DATA_LEN once the declared count is reached. */
    method InputDestination(v: uint8)
      requires readerState == Dst && destinationNodesRead < destinationNodes.Length
      requires destinationNodes != data
      modifies this, destinationNodes
      ensures destinationNodes == old(destinationNodes) && data == old(data)
      ensures Fields() == ReadStep(old(Fields()), old(ReadCursor()), v).0
      ensures ReadCursor() == ReadStep(old(Fields()), old(ReadCursor()), v).1
      ensures WriteCursor() == old(WriteCursor())
    {
      destinationNodes[destinationNodesRead] := v;
      destinationNodesRead := destinationNodesRead + 1;
      if destinationNodesRead >= destinationNodesLen {
        readerState := DataLen;
      }
    }

    /** The DATA case of `can_datagram_input_byte` (can_datagram.c:75-89): store a data byte
        and move on to TRAILING once the announced length is read or the buffer is full. */
    method InputData(v: uint8)
      requires readerState == Data && dataBytesRead < data.Length
      requires destinationNodes != data
      modifies this, data
      ensures destinationNodes == old(destinationNodes) && data == old(data)
      ensures Fields() == ReadStep(old(Fields()), old(ReadCursor()), v).0
      ensures ReadCursor() == ReadStep(old(Fields()), old(ReadCursor()), v).1
      ensures WriteCursor() == old(WriteCursor())
    {
      data[dataBytesRead] := v;
      dataBytesRead := dataBytesRead + 1;
      if dataBytesRead >= dataLen {
        readerState := Trailing;
      }
      if dataBytesRead >= dataBufferSize {
        readerState := Trailing;
      }
    }

    /** `can_datagram_input_byte`: one reader step. From a reachable reader state the write it
        makes is in bounds and the next state is reachable again. */
    method InputByte(v: uint8)
      requires InBounds(Fields(), ReadCursor())
      requires destinationNodes != data
      modifies this, destinationNodes, data
      ensures destinationNodes == old(destinationNodes) && data == old(data)
      ensures Fields() == ReadStep(old(Fields()), old(ReadCursor()), v).0
      ensures ReadCursor() == ReadStep(old(Fields()), old(ReadCursor()), v).1
      ensures WriteCursor() == old(WriteCursor())
      ensures Attached(old(Fields())) && ReaderInv(old(Fields()), old(ReadCursor())) ==>
        Attached(Fields()) && ReaderInv(Fields(), ReadCursor())
    {
      ghost var rec, r := Fields(), ReadCursor();
      if Attached(rec) && ReaderInv(rec, r) {
        ReadStepKeepsInv(rec, r, v);
      }
      if readerState == Dst {
        InputDestination(v);
      } else if readerState == Data {
        InputData(v);
      } else {
        InputScalar(v);
      }
    }

    /** The cases of `can_datagram_input_byte` that store no buffer byte (can_datagram.c:36-53,
        64-72, 91-93): the version, a checksum byte, the destination count, a length byte, or
        nothing in TRAILING. */
    method InputScalar(v: uint8)
      requires readerState != Dst && readerState != Data
      modifies this
      ensures destinationNodes == old(destinationNodes) && data == old(data)
      ensures Fields() == ReadStep(old(Fields()), old(ReadCursor()), v).0
      ensures ReadCursor() == ReadStep(old(Fields()), old(ReadCursor()), v).1
      ensures WriteCursor() == old(WriteCursor())
    {
      match readerState
      case ProtocolVersion =>
        protocolVersion := v;
        readerState := Crc;
      case Crc =>
        crc := ShiftIn(crc, v);
        crcBytesRead := crcBytesRead + 1;
        if crcBytesRead >= 4 {
          readerState := DstLen;
        }
      case DstLen =>
        destinationNodesLen := v;
        readerState := Dst;
      case DataLen =>
        dataLen := ShiftIn(dataLen, v);
        dataLengthBytesRead := dataLengthBytesRead + 1;
        if dataLengthBytesRead >= 4 {
          readerState := Data;
        }
      case Trailing =>
    }

    /** The body of the loop in `can_datagram_output_bytes` for index i: one writer step,
        which either stores its byte at buffer[i] or stops (the two `return i` of the C code). */
    method OutputStep(buffer: array<uint8>, i: nat) returns (stop: bool)
      requires i < buffer.Length
      requires buffer != destinationNodes && buffer != data
      requires EncodeFits(Fields()) && WriterInv(Fields(), WriteCursor())
      modifies this, buffer
      ensures destinationNodes == old(destinationNodes) && data == old(data)
      ensures Fields() == old(Fields()) && ReadCursor() == old(ReadCursor())
      ensures var step := WriterStep(Fields(), old(WriteCursor()));
        && stop == step.Stop? && WriteCursor() == step.next
        && (!stop ==> buffer[i] == step.b)
      ensures stop ==> buffer[i] == old(buffer[i])
      ensures forall k :: 0 <= k < buffer.Length && k != i ==> buffer[k] == old(buffer[k])
    {
      ghost var rec, w := Fields(), WriteCursor();
      stop := false;
      match writerState
      case ProtocolVersion =>
        buffer[i] := protocolVersion;
        writerState := Crc;
        crcBytesWritten := 0;
      case Crc =>
        buffer[i] := ByteOf(crc, crcBytesWritten);
        crcBytesWritten := crcBytesWritten + 1;
        if crcBytesWritten >= 4 {
          writerState := DstLen;
        }
      case DstLen =>
        buffer[i] := destinationNodesLen;
        writerState := Dst;
        destinationNodesWritten := 0;
      case Dst =>
        buffer[i] := destinationNodes[destinationNodesWritten];
        destinationNodesWritten := destinationNodesWritten + 1;
        if destinationNodesWritten >= destinationNodesLen {
          writerState := DataLen;
          dataLengthBytesWritten := 0;
        }
      case DataLen =>
        buffer[i] := ByteOf(dataLen, dataLengthBytesWritten);
        dataLengthBytesWritten := dataLengthBytesWritten + 1;
        if dataLengthBytesWritten >= 4 {
          writerState := Data;
          dataBytesWritten := 0;
        }
      case Data =>
        if dataBytesWritten >= dataLen {
          writerState := Trailing;
          stop := true;
        } else {
          buffer[i] := data[dataBytesWritten];
          dataBytesWritten := dataBytesWritten + 1;
        }
      case Trailing =>
        stop := true;
    }

    /** `can_datagram_output_bytes(dt, buffer, bufferLen)`: writes buffer[0..n) with what the
        writer emits for a buffer of that length, which is the wire form from the writer's
        position on, and returns n; n is less than bufferLen only when the datagram is out. */
    method OutputBytes(buffer: array<uint8>, bufferLen: nat) returns (n: nat)
      requires bufferLen <= buffer.Length
      requires buffer != destinationNodes && buffer != data
      requires EncodeFits(Fields()) && WriterInv(Fields(), WriteCursor())
      modifies this, buffer
      ensures destinationNodes == old(destinationNodes) && data == old(data)
      ensures Fields() == old(Fields()) && ReadCursor() == old(ReadCursor())
      ensures n <= bufferLen && (n < bufferLen ==> writerState == Trailing)
      ensures buffer[..n] == Output(Fields(), old(WriteCursor()), bufferLen).0
      ensures WriteCursor() == Output(Fields(), old(WriteCursor()), bufferLen).1
      ensures buffer[n..] == old(buffer[n..])
    {
      ghost var rec := Fields();
      ghost var w0 := WriteCursor();
      ghost var target := Output(rec, w0, bufferLen);
      var i := 0;
      assert buffer[..i] + target.0 == target.0;
      assert OnTrack(rec, w0, bufferLen, buffer[..i], w0, bufferLen - i);
      while i < bufferLen
        invariant i <= bufferLen
        invariant destinationNodes == old(destinationNodes) && data == old(data)
        invariant Fields() == rec && ReadCursor() == old(ReadCursor())
        invariant WriterInv(rec, WriteCursor())
        invariant OnTrack(rec, w0, bufferLen, buffer[..i], WriteCursor(), bufferLen - i)
        invariant forall k :: i <= k < buffer.Length ==> buffer[k] == old(buffer[k])
      {
        ghost var w := WriteCursor();
        ghost var before := buffer[..];
        OnTrackStep(rec, w0, bufferLen, buffer[..i], w, bufferLen - i);
        var stop := OutputStep(buffer, i);
        Overwrite(before, buffer[..], i);
        if stop {
          assert buffer[..i] == before[..i];
          assert buffer[i..] == old(buffer[i..]);
          return i;
        }
        assert buffer[..i + 1] == before[..i] + [buffer[i]];
        i := i + 1;
      }
      assert buffer[bufferLen..] == old(buffer[bufferLen..]);
      return bufferLen;
    }
  }

  /** Writing one element of an array leaves the elements before and after it as they were. */
  lemma Overwrite(before: seq<uint8>, after: seq<uint8>, i: nat)
    requires |before| == |after| && i < |before|
    requires forall k :: 0 <= k < |before| && k != i ==> after[k] == before[k]
    ensures after[..i] == before[..i] && after[..i + 1] == before[..i] + [after[i]]
  {
  }
}
