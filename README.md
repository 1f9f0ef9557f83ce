# CAN datagram codec

A Dafny model of the datagram codec of the CAN bootloader (`can_datagram.c`). A datagram is a
message cut into CAN frames. The codec has three parts:

- a **reader** (`can_datagram_input_byte`) that parses the wire form one byte at a time into a
  `can_datagram_t` record and two buffers supplied by the caller;
- a resumable **writer** (`can_datagram_output_bytes`) that serialises the record into
  successive output buffers;
- the **checks** `can_datagram_compute_crc`, `can_datagram_is_complete`,
  `can_datagram_is_valid` and `can_datagram_id_start_is_set`.

The wire form is: version byte, 32-bit checksum (most significant byte first), destination
count L, the destination bytes, 32-bit data length N (most significant byte first), then the
data bytes.

Layout:

- `wire.dfy` (module `Wire`) holds the shared state enumeration, the record and the wire form
  `Encode`. `Encode` is a function, stated byte by byte (`EncodeAt`) and field by field
  (`EncodeFields`).
- `reader.dfy` (module `Reader`):
  - the reader as a pure step function `ReadStep` over the record and a reader cursor;
  - `Feed`, which feeds it a byte string;
  - the lemmas about both, up to the round trip `RoundTrip`.
- `writer.dfy` (module `Writer`):
  - one iteration of the writer's loop as `WriterStep`;
  - one call of the writer, with a buffer of a given length, as `Output`;
  - the proof that the writer emits exactly `Encode`, in any split of buffer lengths.
- `checks.dfy` (module `Checks`):
  - the checksum, with the `crc32` primitive as a function parameter;
  - the validity predicate and the start-of-datagram bit test;
  - the buffer-overflow finding below.
- `transfer.dfy` (module `Transfer`) composes the writer and the reader.
- `datagram.dfy` (module `CanDatagram`) is `can_datagram_t` as a class:
  - its fields are the struct's, and its two buffers are arrays;
  - its methods update it in place;
  - each method is proved against the step functions above: `InputByte` against `ReadStep`, and
    `OutputBytes` (a loop over the output array) against `Output`.

The model follows what the code does, where a reading of the wire form as "L destination bytes,
then N data bytes" would differ:

- The code reads and emits `max(L, 1)` destination bytes, not L bytes. A datagram with no
  destinations still carries one destination byte (`DestinationSpan`).
- With N = 0 the reader still consumes one data byte before it completes. The writer emits
  none, so such a datagram never completes a reader (`Reader.EmptyDataNotComplete`).

## Model

| member | source | states |
|---|---|---|
| Wire.DestinationSpan | can_datagram.c:55-62 | the number of destination bytes on the wire is L, or 1 when L is 0; always between 1 and 255 |
| Wire.ByteOfIsShiftAndMask | can_datagram.c:131 | byte k of a word, as the writer and the checksum compute it, is the C expression `(x >> (24 - 8 * k)) & 0xff`: the word divided by 256 to the power 3 - k, modulo 256 |
| Wire.ShiftInFourBytes | can_datagram.c:41-48 | shifting four bytes into a 32-bit accumulator MSB first (`(acc << 8) \| b`) leaves their big-endian value, whatever the accumulator held |
| Wire.BigEndianValueOfBytes | can_datagram.c:130-137 | the big-endian reading of the four bytes the writer shifts out of a word is that word |
| Wire.BigEndianBytesOfValue | can_datagram.c:41-48 | the four bytes of the word the reader assembles from four bytes are those bytes, in order |
| Wire.Encode | can_datagram.c:119-189 | the wire form has length 10 + max(L,1) + N |
| Wire.EncodeBytes | can_datagram.c:119-189 | each byte of the wire form is the field byte at its position: version, checksum MSB first, L, destinations, N MSB first, data |
| Wire.EncodeFields | can_datagram.c:119-189 | the wire form field by field, as slices |
| Reader.Restart | can_datagram.c:109-117 | `start` sets only the checksum accumulator, to 0x11223344, and keeps every other field |
| Reader.ReadStep | can_datagram.c:33-95 | one `input_byte`: the state advances by at most one place in wire order; TRAILING changes nothing; buffer lengths and the declared size are untouched |
| Reader.DataQuota | can_datagram.c:75-89 | the number of data bytes the reader takes is max(N,1) capped by the declared buffer size: at least 1, at most the size, at most max(N,1), and either N, the size, or 1 when N is 0 |
| Reader.IsComplete | can_datagram.c:97-100 | `is_complete` holds exactly when the reader is in the last state in wire order (TRAILING) |
| Reader.ReadStepKeepsInv | can_datagram.c:33-95 | from a reachable reader state every buffer write is in bounds; every data index written is below the declared size; the next state is reachable and one wire byte further on |
| Reader.Feed | can_datagram.c:33-95 | feeding a byte string keeps the reader reachable and never moves it back; it advances one wire position per byte until it completes |
| Reader.FeedAppend | can_datagram.c:33-95 | feeding a concatenation is feeding its parts in turn, so input may arrive in any chunks |
| Reader.FeedCons | can_datagram.c:33-95 | feeding a byte string is one step followed by the rest |
| Reader.FeedTrailing | can_datagram.c:91-93 | in TRAILING any further input is dropped, and no field changes |
| Reader.HeaderParse | can_datagram.c:36-48 | after `start`, version and four checksum bytes leave the version and the big-endian checksum; the 0x11223344 seed is shifted out entirely |
| Reader.FeedFourBytes | can_datagram.c:41-48 | four bytes fed at the start of CRC or DATA_LEN set the checksum or the data length to their big-endian value, whatever its previous value |
| Reader.FeedDestinations | can_datagram.c:55-62 | destination bytes are stored in order from the cursor on, and the reader moves to DATA_LEN after max(L,1) of them |
| Reader.FeedData | can_datagram.c:75-89 | data bytes are stored in order from the cursor on, and the reader completes after exactly the data quota |
| Reader.DataTruncation | can_datagram.c:75-89 | announced data longer than the declared buffer is truncated: exactly the quota is stored, then the reader is complete and drops the rest |
| Reader.DataPrefixIncomplete | can_datagram.c:75-89 | fewer data bytes than the quota leave the reader in DATA |
| Reader.ZeroLengthsConsumeOneByte | can_datagram.c:55-89 | with L = 0 one destination byte is still stored; with N = 0 one data byte is still stored before completion |
| Reader.ParseHead | can_datagram.c:36-53 | the first six wire bytes of a datagram fill version, checksum and destination count |
| Reader.ParseMiddle | can_datagram.c:55-72 | the destination bytes and the four length bytes fill the destination buffer and the data length |
| Reader.RoundTripHead | can_datagram.c:36-53 | after `start`, feeding a wire form is parsing its version, checksum and count and then feeding the rest from DST |
| Reader.RoundTripMiddle | can_datagram.c:55-72 | from DST, feeding the rest of a wire form is storing its destination bytes and length and then feeding the data from DATA |
| Reader.RoundTripData | can_datagram.c:75-89 | from DATA, feeding N data bytes with 1 <= N <= the declared size stores them and completes the reader |
| Reader.RoundTrip | can_datagram.c:33-95 | when 1 <= N <= the declared buffer size, the wire form of a datagram, fed to a started reader, reproduces every field and both buffer prefixes and completes the reader at its last byte |
| Reader.RoundTripPrefixIncomplete | can_datagram.c:97-100 | `is_complete` is false after every strict prefix of that wire form |
| Reader.EmptyDataNotComplete | can_datagram.c:75-89 | a datagram with N = 0 leaves the reader waiting in DATA after its whole wire form |
| Writer.WriterStep | can_datagram.c:123-185 | in TRAILING the writer stops and does not change state |
| Writer.WriterStepFollowsEncoding | can_datagram.c:123-185 | each byte the writer emits is the field byte at its wire position (`EncodeAt`) and advances the position by one; it stops only in TRAILING, after the whole wire form |
| Writer.Output | can_datagram.c:119-189 | one call writes at most the buffer length; it writes fewer only when it ends in TRAILING; in TRAILING it writes nothing and changes nothing |
| Writer.OutputUnfold | can_datagram.c:122-186 | one loop iteration: stop at once, or emit the step's byte followed by the output from the next cursor with one byte less room |
| Writer.OnTrackStep | can_datagram.c:122-186 | one loop iteration keeps the bytes written so far a prefix of the call's result, and a stop ends the call with them |
| Writer.OutputFollowsEncoding | can_datagram.c:119-189 | the bytes of one call are the next bytes of the wire form from the writer's position, and the position advances past them |
| Writer.OutputSplit | can_datagram.c:119-189 | two successive calls with room a and b write the same bytes and leave the same cursor as one call with room a + b |
| Writer.WholeDatagram | can_datagram.c:119-189 | from the initial cursor, a buffer with room for more than the datagram receives exactly its wire form, and the writer ends in TRAILING |
| Checks.ComputeCrc | can_datagram.c:191-207 | the checksum is crc32 chained from seed 0 over [L], the first L destination bytes, N big-endian and the first N data bytes |
| Checks.CrcInputWithDestinations | can_datagram.c:191-207 | with L != 0 the checksum input is exactly the wire form after the checksum field |
| Checks.CrcInputWithoutDestinations | can_datagram.c:191-207 | with L = 0 the checksum input is the count byte followed by the wire form after the padding destination byte |
| Checks.CrcCoverage | can_datagram.c:191-207 | the checksum covers every wire byte after the checksum field, except the padding destination byte when L is 0; it never reads the version or the stored checksum |
| Checks.IsValid | can_datagram.c:102-107 | `is_valid` holds exactly when the reader is complete, the stored checksum equals crc32 chained from seed 0 over the covered segments, and the version is the supported one |
| Checks.IdStartIsSet | can_datagram.c:209-212 | a CAN identifier starts a datagram iff its bit 7 is set |
| Checks.StampedDatagramArrivesValid | can_datagram.c:97-107 | when 1 <= N <= the declared buffer size, a datagram stamped with its own checksum and the supported version is valid after a started reader has parsed its wire form |
| Checks.OverflowMakesIsValidReadPastBuffer | can_datagram.c:75-107 | after a data-buffer overflow the datagram is complete, yet `data_len` exceeds the buffer, so `is_valid` computes the checksum past its end |
| Checks.IsValidChecked | can_datagram.c:102-107 | `is_valid` with overflow rejected first: it is false whenever N exceeds the declared size, and otherwise it agrees with `is_valid` |
| Transfer.ChunkedTransfer | can_datagram.c:33-189 | feeding a reader the output of two successive writer calls equals feeding it the output of one larger call |
| Transfer.WriterToReader | can_datagram.c:33-189 | when 1 <= N <= the declared buffer size and the output buffer has room for more than the whole datagram, a fresh writer's output, fed to a started reader, completes it and reproduces every field; if the datagram carries its own checksum and the supported version, it is valid |
| CanDatagram.Datagram.Init | can_datagram.c:16-20 | `init`: every field and cursor zero except the version; no buffers attached |
| CanDatagram.Datagram.SetAddressBuffer | can_datagram.c:22-25 | attaches the destination buffer and changes nothing else |
| CanDatagram.Datagram.SetDataBuffer | can_datagram.c:27-31 | attaches the data buffer with its declared size and changes nothing else |
| CanDatagram.Datagram.Start | can_datagram.c:109-117 | rewinds the reader and seeds the checksum; the writer, lengths and buffers are untouched |
| CanDatagram.Datagram.InputDestination | can_datagram.c:55-62 | the DST case performs `ReadStep` in place |
| CanDatagram.Datagram.InputData | can_datagram.c:75-89 | the DATA case performs `ReadStep` in place |
| CanDatagram.Datagram.InputScalar | can_datagram.c:33-95 | the version, checksum, count, length and TRAILING cases perform `ReadStep` in place without touching a buffer |
| CanDatagram.Datagram.InputByte | can_datagram.c:33-95 | performs `ReadStep` in place and keeps the writer; from a reachable reader state it stays reachable |
| CanDatagram.Datagram.OutputStep | can_datagram.c:123-185 | one iteration of the loop performs `WriterStep` in place and touches only `buffer[i]` |
| CanDatagram.Datagram.OutputBytes | can_datagram.c:119-189 | writes `buffer[0..n)` with the bytes `Output` specifies and leaves its cursor; returns n <= bufferLen, with n < bufferLen only in TRAILING; the record, reader and rest of the buffer are untouched |

## Left out

- The `crc32` primitive of `crc/crc32.h` is not part of this model. Every check takes it as a
  function parameter and assumes nothing about it. So no property says that a corrupted
  datagram fails the checksum.
- `can_datagram.h` is not part of this model. `CAN_DATAGRAM_VERSION` is taken as 1 and
  `ID_START_MASK` as bit 7. No proof depends on the version's value.
- `memset`, the signedness of `char`, and the `size_t` to `int` conversion of the return value
  are not modelled. Bytes are integers 0..255, counts are natural numbers, and the identifier of
  `id_start_is_set` is 32 bits wide.
- The writer's `default` branch (can_datagram.c:181-184) is unreachable with a datatype state
  and is not modelled. The reader's `default` branch is the TRAILING case.
- Aliasing between the destination buffer, the data buffer and the output buffer is excluded
  by preconditions. The unchecked destination write (can_datagram.c:56) and data write
  (can_datagram.c:76) are preconditions of `InputByte` (`Reader.InBounds`). The writer's reads
  (can_datagram.c:146, 172) are preconditions of `OutputBytes` (`Wire.EncodeFits`).
- Reader reachability (`Reader.ReaderInv`) is stated for a fixed set of buffers. Calling
  `SetDataBuffer` or `SetAddressBuffer` during a parse is allowed by the methods, but the lemmas
  do not cover it.
- Writer reachability is stated for a record that does not change while the writer runs.
  Interleaving `InputByte` with `OutputBytes` on one datagram is not covered by the writer
  lemmas.
- The writer has no reset: only `init` starts it. The model keeps this and adds no reset.
- `CanDatagram.Datagram.InputByte` and `OutputBytes` split the switch cases and the
  loop body into helper methods (`InputScalar`, `InputDestination`, `InputData`, `OutputStep`). The control
  flow and the state changes are the C code's.

## Findings

| source | as written | input that shows it | evidently intended | confidence | as-written member | corrected member |
|---|---|---|---|---|---|---|
| can_datagram.c:84-87, 102-107, 191-207 | after a data-buffer overflow the reader reports the datagram complete, and `is_valid` then computes the checksum over `data[0..data_len)`, reading past the end of the data buffer | data buffer of 2 bytes (declared size 2), a datagram announcing `data_len` = 5 followed by 5 data bytes | an overflowed datagram is reported invalid without reading beyond the buffer | high; not executed | Checks.OverflowMakesIsValidReadPastBuffer | Checks.IsValidChecked |
