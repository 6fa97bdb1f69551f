# SLIX frame layer, modelled in Dafny

This project models the frame layer that the NFC Magic application uses with
NXP ICODE SLIX tags (ISO/IEC 15693). It covers four parts:

- **Request construction** (`magic/protocols/slix/slix.c`): the one-slot
  INVENTORY request, and zeroing and copying a `SlixData` record.
- **Addressed exchanges** (`magic/protocols/slix/slix_poller_i.c`): WRITE
  SINGLE BLOCK and the NXP commands GET NXP SYSTEM INFORMATION and READ
  SIGNATURE, plus the mapping of transport errors to poller errors. Each
  exchange:
  - builds its request in the transmit buffer;
  - makes one call to the transceiver;
  - checks the reply's transport error, CRC and response error flag, and, for
    the two NXP commands, its exact length (9 and 33 bytes after the CRC is
    removed); the write-block check tests no length;
  - only on success, writes fields of the record.
- **Tag detection** (`magic/protocols/slix/slix_poller.c`): the detect callback
  sends INVENTORY and accepts any answer that arrived without a transport
  error, has at least 12 bytes and has its error flag clear. It then records
  bytes 2..9 as the UID. `slix_poller_detect` reports whether that happened.
- **The CRC-16 of ISO/IEC 13239**, as ISO/IEC 15693-3 Annex C uses it:
  - reflected polynomial 0x8408;
  - preset 0xFFFF;
  - the final register complemented;
  - two trailer bytes, low byte first.

  It is a pure function. The model proves the append-then-check round trip, the
  standard check value `906E` for "123456789", and that any one corrupted byte
  is detected.

Files and modules:

- `iso13239_crc.dfy` (`Iso13239Crc`): the CRC.
- `bit_buffer.dfy` (`BitBuffers`): the byte buffer, a class with a fixed
  capacity. Its methods reset it, append to it, trim it and append a CRC in
  place.
- `nfc.dfy` (`NfcTransport`): the transceiver, a class with one exchange
  method. What the tag answers is an input, a transport error paired with the
  received bytes. A ghost log records each frame sent and its deadline.
- `iso15693_frame.dfy` (`Iso15693Frame`): ISO/IEC 15693-3 request frames, with
  an encoder and the parser a tag would apply.
- `slix.dfy` (`Slix`): the `SlixData` record as a class, `slix_reset`,
  `slix_copy` and the INVENTORY request.
- `slix_poller_i.dfy` (`SlixPollerOps`): the addressed exchanges.
- `slix_poller.dfy` (`SlixDetect`): detection.

Each state-changing C function is a method. It is proved against a function
of its inputs: the request function for what it transmits, and a result
function of the reply for its error code and the record's new value. The
properties are lemmas about those functions.

Decisions where the source leaves a gap:

- **Record fields.** `magic/protocols/slix/slix.h:12-15` declares `SlixData`
  with only `uid`. `slix_poller_i.c` writes `slix_info.*`,
  `iso15693_3_settings.lock_bits.*` and `signature`, and those headers are not
  part of this model. The record modelled holds exactly the fields the code
  reads or writes, plus `signature_read`. No code here writes
  `signature_read`; it is kept so that the contracts can say it is left alone.
- **Constants from unseen headers** take their ISO/IEC 15693-3 values:
  - request flags: high data rate 0x02, inventory 0x04, one slot and addressed
    0x20;
  - response error flag 0x01;
  - commands: INVENTORY 0x01, WRITE SINGLE BLOCK 0x21.

  The NXP values are GET NXP SYSTEM INFORMATION 0xAB, READ SIGNATURE 0xBD and
  manufacturer code 0x04. The poller frame delay time is 4202 carrier cycles.
- **The CRC helpers.** `slix.c` calls `iso15693_crc_append` and
  `slix_poller_i.c` calls the `iso13239_crc_*` helpers. Both are taken to be
  the CRC above.
- **The CRC check's length guard.** `Iso13239Crc.CrcChecks` takes any frame
  of at least two bytes, so a frame that is only a trailer is checked against
  the CRC of no bytes (0x0000). Whether the firmware's `iso13239_crc_check`
  refuses frames of two bytes or fewer instead cannot be seen from the code
  modelled here. This assumption decides only the write-block case under
  "Left out".
- **The buffer's index check.** `bit_buffer_get_byte` is called at
  `slix_poller_i.c:58` and `slix_poller.c:46` but not defined in the code
  modelled here. `BitBuffers.BitBuffer.GetByte` assumes its index is checked
  against the bytes the buffer holds, not against its capacity, and requires
  an index below the contents' length.
- **The little-endian helper.** `bit_lib_bytes_to_num_le` is called at
  `slix_poller_i.c:115` but not defined in the code modelled here.
  `SlixPollerOps.LittleEndian32` takes it to read its four bytes least
  significant first. The declaration of `feature_flags` is not shown either;
  the field is modelled as `bv32`, so the result is taken to fit it.
- **The transceiver handle.** The code reads `instance->nfc`
  (`slix_poller_i.c:49`, `87`, `145`), but `struct SlixPoller`
  (`slix_poller_i.h:32-49`) declares no `nfc` field. `SlixPoller` carries the
  transceiver as a field `nfc`.
- **Sizes.** `SLIX_BLOCK_SIZE` and `SLIX_SIGNATURE_SIZE` are not defined in the
  code modelled here. They are taken as 4 (a SLIX memory block) and 32 (an NXP
  originality signature). `SLIX_UID_LEN` is 8 (`slix.h:10`).

## Model

| member | source | states |
|---|---|---|
| `Iso13239Crc.AppendChecks` | magic/protocols/slix/slix_poller_i.c:46 | appending the CRC gives a frame the check accepts, and trimming gives back the original bytes |
| `Iso13239Crc.CheckedIsAppended` | magic/protocols/slix/slix_poller_i.c:56-57 | a frame the check accepts is its trimmed contents with the CRC appended |
| `Iso13239Crc.CrcBytesLowFirst` | magic/protocols/slix/slix_poller_i.c:46 | the two trailer bytes are the CRC, low byte first |
| `Iso13239Crc.CrcBytesInjective` | magic/protocols/slix/slix_poller_i.c:56 | two payloads with equal trailers have equal CRCs |
| `Iso13239Crc.EmptyPayloadCrc` | magic/protocols/slix/slix_poller_i.c:56-58 | the CRC of no bytes is 0x0000, so the two bytes `00 00` pass the check |
| `Iso13239Crc.CheckValue` | magic/protocols/slix/slix.c:14 | the CRC of "123456789" is 0x906E, the standard check value |
| `Iso13239Crc.ShiftBitsInjective` | magic/protocols/slix/slix_poller_i.c:46 | distinct registers stay distinct through any number of shifts |
| `Iso13239Crc.RegisterFromInjective` | magic/protocols/slix/slix_poller_i.c:46 | distinct starting registers give distinct registers after the same bytes |
| `Iso13239Crc.RegisterConcat` | magic/protocols/slix/slix_poller_i.c:46 | the register after `a + b` is the register after `b` started from the register after `a` |
| `Iso13239Crc.OneByteChangesCrc` | magic/protocols/slix/slix_poller_i.c:56 | payloads that differ in exactly one byte have different CRCs |
| `Iso13239Crc.SingleByteErrorDetected` | magic/protocols/slix/slix_poller_i.c:56 | a framed payload corrupted in any one byte, trailer included, fails the check |
| `Iso15693Frame.EncodeRequest` | magic/protocols/slix/slix_poller_i.c:32-46 | an encoded request passes the CRC check and trims to flags, command, manufacturer code, UID, parameters |
| `Iso15693Frame.ParseRequest` | magic/protocols/slix/slix_poller_i.c:32-46 | the reference inverse of the request layout those lines build, as a tag would read it (no line of the source parses requests): a frame parses exactly when its CRC checks and its length fits the shape, and the parsed request encodes back to the frame |
| `Iso15693Frame.ParseEncode` | magic/protocols/slix/slix_poller_i.c:32-46 | the other direction of that reference inverse of the layout built at those lines: a tag reads back exactly the request that was encoded |
| `Slix.ZeroRecordIsZero` | magic/protocols/slix/slix.c:27-30 | the zeroed record has full-size arrays with every byte zero, every flag clear and every number 0 |
| `Slix.SlixData.Reset` | magic/protocols/slix/slix.c:27-30 | after the reset the record is the zero record, whatever it held |
| `Slix.ResetTwice` | magic/protocols/slix/slix.c:27-30 | resetting twice leaves the same record as resetting once |
| `Slix.SlixData.Copy` | magic/protocols/slix/slix.c:32-36 | the destination equals the source field by field and the source is unchanged |
| `Slix.InventoryRequestBytes` | magic/protocols/slix/slix.c:9-14 | the INVENTORY request is the five bytes `26 01 00 F6 0A`: flags inventory, one slot and high data rate, then command, mask length, CRC low and high; its CRC checks |
| `Slix.BuildInventoryRequest` | magic/protocols/slix/slix.c:7-15 | the buffer holds exactly the INVENTORY request, whatever it held before |
| `Slix.BuildInventoryRequestTwice` | magic/protocols/slix/slix.c:7-15 | building the request twice gives identical frames |
| `SlixPollerOps.ProcessNfcError` | magic/protocols/slix/slix_poller_i.c:10-27 | no transport error maps to None and a timeout to Timeout, in both directions; every other transport error maps to Protocol |
| `SlixPollerOps.WriteBlockRequestLayout` | magic/protocols/slix/slix_poller_i.c:32-46 | the write request is 17 bytes: flags 0x22, command, the UID in stored order, block number, four data bytes, CRC; a tag parses it back |
| `SlixPollerOps.NxpRequestLayout` | magic/protocols/slix/slix_poller_i.c:74-84 | an NXP request is 13 bytes: flags, command, manufacturer code, UID, CRC, with the manufacturer code before the UID; a tag parses it back |
| `SlixPollerOps.UnreadableWriteBlockReply` | magic/protocols/slix/slix_poller_i.c:56-58 | the only reply whose response flags the write check would read past the end of is a successful transfer of `00 00` |
| `SlixPollerOps.WriteBlockResultCases` | magic/protocols/slix/slix_poller_i.c:49-67 | a write gives None exactly when the transport succeeded, the CRC checks and the error flag is clear; Timeout exactly on a timeout; Protocol otherwise |
| `SlixPollerOps.WriteBlockTagReply` | magic/protocols/slix/slix_poller_i.c:54-65 | a tag's correctly framed reply is accepted exactly when its error flag is clear |
| `SlixPollerOps.WriteBlockCorruptedReply` | magic/protocols/slix/slix_poller_i.c:56-63 | a reply corrupted in any one byte gives Protocol |
| `SlixPollerOps.SlixPoller.WriteBlock` | magic/protocols/slix/slix_poller_i.c:29-68 | one exchange of the write request with deadline 60000; the error is the write result of the reply; the record is not modified |
| `SlixPollerOps.LittleEndianRoundTrip` | magic/protocols/slix/slix_poller_i.c:114-115 | reading four bytes little-endian and writing the word back out are inverse in both directions |
| `SlixPollerOps.NxpSystemInfoResultCases` | magic/protocols/slix/slix_poller_i.c:90-123 | the reply is accepted exactly when the transport succeeded, the CRC checks, 9 bytes remain and the error flag is clear; Timeout exactly on a timeout; errors are only Timeout or Protocol |
| `SlixPollerOps.NxpSystemInfoRoundTrip` | magic/protocols/slix/slix_poller_i.c:96-116 | a reply padded to the nine bytes the check demands is decoded field by field: pointer byte 1, condition byte 2, lock bits 0..3 to AFI, EAS, DSFID, PPL, feature word little-endian from bytes 4..7; a set error flag gives Protocol |
| `SlixPollerOps.NxpSystemInfoRefusesTagReply` | magic/protocols/slix/slix_poller_i.c:96-97 | the reply a tag sends (flags and seven data bytes) is refused with Protocol for every content, because the check demands nine bytes |
| `SlixPollerOps.NxpSystemInfoIntendedRoundTrip` | magic/protocols/slix/slix_poller_i.c:96-116 | with the length check at eight bytes, a tag's reply gives back every field it encodes, or Protocol when its error flag is set |
| `SlixPollerOps.SlixPoller.StoreNxpSystemInfo` | magic/protocols/slix/slix_poller_i.c:103-115 | the field writes leave the record equal to the old record with the decoded system information applied |
| `SlixPollerOps.NxpSystemInfoIgnoresLastByte` | magic/protocols/slix/slix_poller_i.c:97-115 | byte 8 of the reply is never read: replies differing only there decode alike |
| `SlixPollerOps.ApplyNxpSystemInfoFrame` | magic/protocols/slix/slix_poller_i.c:103-115 | applying system information sets exactly the reported fields and leaves UID, signature and `signature_read` alone |
| `SlixPollerOps.SlixPoller.GetNxpSystemInfo` | magic/protocols/slix/slix_poller_i.c:70-126 | one exchange of the NXP system information request with deadline 60000; on acceptance the record gets the decoded fields, otherwise it is unchanged |
| `SlixPollerOps.SignatureResultCases` | magic/protocols/slix/slix_poller_i.c:148-169 | the signature is accepted exactly when the transport succeeded, the CRC checks, 33 bytes remain and the error flag is clear; it is then reply bytes 1..32; Timeout exactly on a timeout; errors are only Timeout or Protocol |
| `SlixPollerOps.SignatureRoundTrip` | magic/protocols/slix/slix_poller_i.c:154-162 | a tag's signature reply gives back the signature it carries, unless its error flag is set |
| `SlixPollerOps.SlixPoller.ReadSignature` | magic/protocols/slix/slix_poller_i.c:128-172 | one exchange of the signature request with deadline 120000; on acceptance only `signature` changes, otherwise nothing |
| `SlixDetect.DetectContext.Callback` | magic/protocols/slix/slix_poller.c:21-62 | always Stop and always signals; only a ready event transmits, and it transmits exactly the INVENTORY request; `detected` is set and the UID written exactly when the answer is accepted |
| `SlixDetect.Detect` | magic/protocols/slix/slix_poller.c:64-91 | true exactly when a ready event arrived and its answer was accepted; the record changes only then |
| `SlixDetect.InventoryUid` | magic/protocols/slix/slix_poller.c:49-52 | the UID is eight bytes taken in received order |
| `SlixDetect.InventoryTagReply` | magic/protocols/slix/slix_poller.c:42-52 | a tag's 12-byte answer is accepted exactly when its error flag is clear, and the recorded UID is the one it sent |
| `SlixDetect.InventoryCrcNotChecked` | magic/protocols/slix/slix_poller.c:42-48 | an answer corrupted in any byte after the flags fails the CRC check and is still accepted |
| `SlixDetect.InventoryAcceptanceDependsOnFlagsOnly` | magic/protocols/slix/slix_poller.c:37-47 | among answers of at least 12 bytes, acceptance depends only on the transport error and the flags byte |

## Left out

- The poller state machine is not modelled, because the files modelled here
  define only its state enum (`magic/protocols/slix/slix_poller_i.h:21-30`). That covers the state
  handlers, the wipe loop, the get-info sequence and the event callbacks.
- The UI scenes and the scanner are not modelled. The scenes only forward
  events, and the scanner's header holds declarations only.
- The transceiver internals are not modelled: `nfc_config`, guard time, the
  frame-delay setting, `nfc_start` and `nfc_stop`. An exchange takes its answer
  as an input.
- The thread-flag wait and its 200 ms timeout are not modelled, because they
  exist only for concurrency. `SlixDetect.Detect` takes as input whether an
  event arrived in time, and which.
- `slix_alloc` and `slix_free` (malloc and free) are not modelled, and neither
  is logging.
- `slix_alloc` does not zero memory. The `SlixData` constructor therefore takes
  the initial record as an argument.
- `slix_build_write_block_request` is not modelled: `slix.h` declares it but
  nothing defines it. The write frame is built inline in
  `slix_poller_write_block`, and that version is modelled.
- The CRC helper library is not part of this model. It is assumed to compute
  the ISO/IEC 13239 CRC exactly as `Iso13239Crc` defines it. Its check is
  assumed to accept any frame of at least two bytes whose trailer is the CRC
  of the rest, including a frame that is only a trailer.
- `SlixPollerOps.SlixPoller.WriteBlock`: it requires that the response flags
  are readable after the CRC trim. The source reads byte 0 without a length
  check. If the CRC check accepts a frame that is only a trailer, as
  assumed above, that read goes past the end on exactly one reply: a
  successful transfer of `00 00` (`UnreadableWriteBlockReply`), where the
  source reads past the trimmed contents; what the library does then is not
  in the code modelled here. If the check refuses such
  frames, that reply gives Protocol and nothing reads past the end; the model
  does not decide between the two.
- `SlixPollerOps.SlixPoller.WriteBlock`, `SlixPollerOps.SlixPoller.GetNxpSystemInfo`,
  `SlixPollerOps.SlixPoller.ReadSignature`: each requires a reply of at most 64
  bytes. `SlixDetect.DetectContext.Callback` and `SlixDetect.Detect` require
  at most 32. The receive buffer cannot hold more, so the case where the
  transceiver truncates a longer reply is left out.
- C's conversion of `lock_bits & mask` to a `bool` field is modelled as "the
  bit is set". This assumes the fields are `bool`; their declarations are not
  part of this model.

## Findings

| source | as written | input that shows it | evidently intended | confidence | as-written member | corrected member |
|---|---|---|---|---|---|---|
| magic/protocols/slix/slix_poller_i.c:96-97 | the NXP system information reply must leave exactly 9 bytes after the CRC trim, flags plus eight data bytes, although only seven data bytes are parsed (lines 103-115) | any tag reply of flags, protection pointer, protection condition, lock bits and a 4-byte feature word with its CRC, for example `00 00 00 00 00 00 00 00` followed by its CRC: 8 bytes after the trim, refused with Protocol | accept 8 bytes after the trim, the flags byte and the seven data bytes parsed, which is the reply layout of the command | medium, not executed | `SlixPollerOps.NxpSystemInfoRefusesTagReply` | `SlixPollerOps.NxpSystemInfoIntendedRoundTrip` |

`SlixPollerOps.NxpSystemInfoResult` and `SlixPoller.GetNxpSystemInfo` model
the code as written, with the nine-byte check.
`SlixPollerOps.NxpSystemInfoResultIntended` is the same check with eight bytes,
and both are one function, `CheckedNxpSystemInfo`, applied to two lengths.
