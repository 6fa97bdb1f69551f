/**
 * The addressed SLIX exchanges (magic/protocols/slix/slix_poller_i.c): WRITE
 * SINGLE BLOCK, the NXP GET NXP SYSTEM INFORMATION and READ SIGNATURE
 * commands, and the mapping of transport errors to poller errors.
 *
 * Each exchange builds its request in the transmit buffer, makes one call to
 * the transceiver, checks the reply (transport error, CRC, the error flag of
 * the response-flags byte and, for the two NXP commands only, the exact
 * length) and only on success writes fields of the record. Each is a method on `SlixPoller` proved against a function of the
 * reply: `WriteBlockResult`, `NxpSystemInfoResult`, `SignatureResult`.
 *
 * The vendor command codes and the NXP manufacturer code come from headers
 * that are not part of this model; the constants are the values NXP's SLIX2
 * documentation and ISO/IEC 7816-6 (IC manufacturer 0x04) give them.
 */
module SlixPollerOps {
  import Crc = Iso13239Crc
  import opened Iso15693Frame
  import opened BitBuffers
  import opened NfcTransport
  import opened Slix

  /** Capacity of the poller's transmit and receive buffers. */
  const MaxBufferSize: nat := 64
  /** Response deadline of an exchange, in carrier cycles. */
  const MaxFwt: nat := 60000

  /** NXP custom command GET NXP SYSTEM INFORMATION. */
  const CmdGetNxpSystemInformation: byte := 0xAB
  /** NXP custom command READ SIGNATURE. */
  const CmdReadSignature: byte := 0xBD
  /** IC manufacturer code of NXP, sent after every NXP custom command code. */
  const NxpManufacturerCode: byte := 0x04

  /** Flags of every addressed request here: high data rate, addressed. */
  const AddressedFlags: byte := ReqFlagDataRateHigh | ReqFlagAddressed

  /** Length of the NXP system information reply without its CRC: flags and eight bytes. */
  const NxpSystemInfoReplySize: nat := 9
  /** Length of the signature reply without its CRC: flags and the 32-byte signature. */
  const SignatureReplySize: nat := 1 + SignatureSize

  datatype SlixPollerError = None | Timeout | Protocol

  /** An operation's outcome: the decoded reply, or the error it ends with. */
  datatype Result<T> = Ok(value: T) | Err(error: SlixPollerError)

  /** `slix_poller_process_nfc_error`: no error and a timeout keep their meaning, anything else is a protocol error. */
  function ProcessNfcError(error: NfcError): (r: SlixPollerError)
    ensures r == SlixPollerError.None <==> error == NfcError.None
    ensures r == SlixPollerError.Timeout <==> error == NfcError.Timeout
    ensures r == SlixPollerError.Protocol <==> error.Other?
  {
    match error
    case None => SlixPollerError.None
    case Timeout => SlixPollerError.Timeout
    case Other(_) => SlixPollerError.Protocol
  }

  // ---------------------------------------------------------------------------
  // Requests

  /** WRITE SINGLE BLOCK addressed to `uid`: block number, then the four data bytes. */
  function WriteBlockRequest(uid: seq<byte>, blockNum: byte, data: seq<byte>): seq<byte>
    requires |uid| == UidLength && |data| == BlockSize
  {
    EncodeRequest(Request(AddressedFlags, CmdWriteBlock, Option.None, Some(uid), [blockNum] + data))
  }

  /** An NXP custom command addressed to `uid`, without parameters. */
  function NxpRequest(command: byte, uid: seq<byte>): seq<byte>
    requires |uid| == UidLength
  {
    EncodeRequest(Request(AddressedFlags, command, Some(NxpManufacturerCode), Some(uid), []))
  }

  function NxpSystemInfoRequest(uid: seq<byte>): seq<byte>
    requires |uid| == UidLength
  {
    NxpRequest(CmdGetNxpSystemInformation, uid)
  }

  function ReadSignatureRequest(uid: seq<byte>): seq<byte>
    requires |uid| == UidLength
  {
    NxpRequest(CmdReadSignature, uid)
  }

  /** The write request is 17 bytes: flags 0x22, command 0x21, the UID as stored, block number, data, CRC. */
  lemma WriteBlockRequestLayout(uid: seq<byte>, blockNum: byte, data: seq<byte>)
    requires |uid| == UidLength && |data| == BlockSize
    ensures var f := WriteBlockRequest(uid, blockNum, data);
      && |f| == 17
      && f[0] == AddressedFlags == 0x22 && f[1] == CmdWriteBlock
      && f[2..10] == uid && f[10] == blockNum && f[11..15] == data
      && Crc.CrcChecks(f) && f[15..] == Crc.CrcBytes(f[..15])
    ensures ParseRequest(WriteBlockRequest(uid, blockNum, data), Shape(false, true, 1 + BlockSize))
         == Some(Request(AddressedFlags, CmdWriteBlock, Option.None, Some(uid), [blockNum] + data))
  {
    var r := Request(AddressedFlags, CmdWriteBlock, Option.None, Some(uid), [blockNum] + data);
    var body := RequestBody(r);
    assert body == [AddressedFlags, CmdWriteBlock] + uid + [blockNum] + data;
    var f := WriteBlockRequest(uid, blockNum, data);
    assert f[..15] == body;
    ParseEncode(r, Shape(false, true, 1 + BlockSize));
  }

  /** An NXP request is 13 bytes: flags, command, the manufacturer code before the UID, the UID, CRC. */
  lemma NxpRequestLayout(command: byte, uid: seq<byte>)
    requires |uid| == UidLength
    ensures var f := NxpRequest(command, uid);
      && |f| == 13
      && f[0] == AddressedFlags && f[1] == command && f[2] == NxpManufacturerCode
      && f[3..11] == uid
      && Crc.CrcChecks(f) && f[11..] == Crc.CrcBytes(f[..11])
    ensures ParseRequest(NxpRequest(command, uid), Shape(true, true, 0))
         == Some(Request(AddressedFlags, command, Some(NxpManufacturerCode), Some(uid), []))
  {
    var r := Request(AddressedFlags, command, Some(NxpManufacturerCode), Some(uid), []);
    var body := RequestBody(r);
    assert body == [AddressedFlags, command, NxpManufacturerCode] + uid;
    var f := NxpRequest(command, uid);
    assert f[..11] == body;
    ParseEncode(r, Shape(true, true, 0));
  }

  // ---------------------------------------------------------------------------
  // Replies

  /** The receive buffer after the exchange: trimmed exactly when the transport succeeded and the CRC checked. */
  function RxAfterCheck(reply: TrxReply): seq<byte> {
    if ProcessNfcError(reply.error) == SlixPollerError.None && Crc.CrcChecks(reply.bytes)
    then Crc.Trim(reply.bytes)
    else reply.bytes
  }

  /**
   * The write-block reply check reads the response-flags byte after trimming
   * without checking that a byte is left; this holds unless that read would
   * be out of bounds.
   */
  predicate WriteBlockReplyReadable(reply: TrxReply) {
    ProcessNfcError(reply.error) != SlixPollerError.None
    || !Crc.CrcChecks(reply.bytes)
    || |reply.bytes| > Crc.CrcSize
  }

  /** The only reply the write-block check cannot read is a successful transfer of the two bytes `00 00`. */
  lemma UnreadableWriteBlockReply(reply: TrxReply)
    ensures !WriteBlockReplyReadable(reply) <==> reply == TrxReply(NfcError.None, [0x00, 0x00])
  {
    Crc.EmptyPayloadCrc();
    if !WriteBlockReplyReadable(reply) {
      var b := reply.bytes;
      assert |b| == 2 && b[..0] == [];
      assert b == b[0..] == Crc.CrcBytes([]);
      assert Crc.CrcBytes([]) == [0x00, 0x00];
    }
  }

  /** Outcome of the write-block reply checks. */
  function WriteBlockResult(reply: TrxReply): SlixPollerError
    requires WriteBlockReplyReadable(reply)
  {
    var e := ProcessNfcError(reply.error);
    if e != SlixPollerError.None then e
    else if !Crc.CrcChecks(reply.bytes) then SlixPollerError.Protocol
    else if ErrorFlagSet(Crc.Trim(reply.bytes)[0]) then SlixPollerError.Protocol
    else SlixPollerError.None
  }

  /**
   * A write succeeds exactly when the transport succeeded, the CRC checks and
   * the error flag (mask 0x01) of the response flags is clear; a timeout
   * stays a timeout, every
   * other failure is a protocol error.
   */
  lemma WriteBlockResultCases(reply: TrxReply)
    requires WriteBlockReplyReadable(reply)
    ensures WriteBlockResult(reply) == SlixPollerError.None <==>
      reply.error == NfcError.None && Crc.CrcChecks(reply.bytes) && !ErrorFlagSet(reply.bytes[0])
    ensures WriteBlockResult(reply) == SlixPollerError.Timeout <==> reply.error == NfcError.Timeout
    ensures WriteBlockResult(reply) == SlixPollerError.Protocol <==>
      reply.error.Other? || (reply.error == NfcError.None && (!Crc.CrcChecks(reply.bytes) || ErrorFlagSet(reply.bytes[0])))
  {
  }

  /** A reply a tag builds (flags, any data, CRC) is accepted exactly when its error flag is clear. */
  lemma WriteBlockTagReply(flags: byte, data: seq<byte>)
    ensures WriteBlockReplyReadable(TrxReply(NfcError.None, Crc.Append([flags] + data)))
    ensures WriteBlockResult(TrxReply(NfcError.None, Crc.Append([flags] + data)))
         == if ErrorFlagSet(flags) then SlixPollerError.Protocol else SlixPollerError.None
  {
    Crc.AppendChecks([flags] + data);
  }

  /** A tag reply corrupted in any one byte on the way is refused as a protocol error. */
  lemma WriteBlockCorruptedReply(frame: seq<byte>, i: nat, d: byte)
    requires i < |frame| + Crc.CrcSize && d != 0
    ensures WriteBlockReplyReadable(TrxReply(NfcError.None, Crc.Corrupt(Crc.Append(frame), i, d)))
    ensures WriteBlockResult(TrxReply(NfcError.None, Crc.Corrupt(Crc.Append(frame), i, d))) == SlixPollerError.Protocol
  {
    Crc.SingleByteErrorDetected(frame, i, d);
  }

  /**
   * `bit_lib_bytes_to_num_le` on four bytes, which is not part of this model:
   * assumed to make the word least significant byte first, and to fit the
   * 32-bit `feature_flags`.
   */
  function LittleEndian32(b0: byte, b1: byte, b2: byte, b3: byte): bv32 {
    (b0 as bv32) | ((b1 as bv32) << 8) | ((b2 as bv32) << 16) | ((b3 as bv32) << 24)
  }

  /** The four bytes of `x`, least significant first. */
  function LittleEndianBytes(x: bv32): (b: seq<byte>)
    ensures |b| == 4
  {
    [(x & 0xFF) as byte, ((x >> 8) & 0xFF) as byte, ((x >> 16) & 0xFF) as byte, ((x >> 24) & 0xFF) as byte]
  }

  lemma LittleEndianByte0(b0: byte, b1: byte, b2: byte, b3: byte)
    ensures (LittleEndian32(b0, b1, b2, b3) & 0xFF) as byte == b0
  {
  }

  lemma LittleEndianByte1(b0: byte, b1: byte, b2: byte, b3: byte)
    ensures ((LittleEndian32(b0, b1, b2, b3) >> 8) & 0xFF) as byte == b1
  {
  }

  lemma LittleEndianByte2(b0: byte, b1: byte, b2: byte, b3: byte)
    ensures ((LittleEndian32(b0, b1, b2, b3) >> 16) & 0xFF) as byte == b2
  {
  }

  lemma LittleEndianByte3(b0: byte, b1: byte, b2: byte, b3: byte)
    ensures ((LittleEndian32(b0, b1, b2, b3) >> 24) & 0xFF) as byte == b3
  {
  }

  lemma BytesOfWord(w: bv32, b0: byte, b1: byte, b2: byte, b3: byte)
    requires (w & 0xFF) as byte == b0 && ((w >> 8) & 0xFF) as byte == b1
    requires ((w >> 16) & 0xFF) as byte == b2 && ((w >> 24) & 0xFF) as byte == b3
    ensures LittleEndianBytes(w) == [b0, b1, b2, b3]
  {
  }

  /** First step of `LittleEndianRoundTrip`: each byte of a little-endian word comes back out of its position. */
  lemma LittleEndianBytesOfWord(b0: byte, b1: byte, b2: byte, b3: byte)
    ensures LittleEndianBytes(LittleEndian32(b0, b1, b2, b3)) == [b0, b1, b2, b3]
  {
    LittleEndianByte0(b0, b1, b2, b3);
    LittleEndianByte1(b0, b1, b2, b3);
    LittleEndianByte2(b0, b1, b2, b3);
    LittleEndianByte3(b0, b1, b2, b3);
    BytesOfWord(LittleEndian32(b0, b1, b2, b3), b0, b1, b2, b3);
  }

  /** Second step of `LittleEndianRoundTrip`: a word is the little-endian reading of its own four bytes. */
  lemma LittleEndianWordOfBytes(x: bv32)
    ensures var b := LittleEndianBytes(x); LittleEndian32(b[0], b[1], b[2], b[3]) == x
  {
    var b := LittleEndianBytes(x);
    assert b[0] as bv32 == x & 0xFF;
    assert b[1] as bv32 == (x >> 8) & 0xFF;
    assert b[2] as bv32 == (x >> 16) & 0xFF;
    assert b[3] as bv32 == (x >> 24) & 0xFF;
  }

  /**
   * Reading four bytes little-endian and writing the word back out are
   * inverse, in both directions; the two steps above prove one direction each.
   */
  lemma LittleEndianRoundTrip(b0: byte, b1: byte, b2: byte, b3: byte, x: bv32)
    ensures LittleEndianBytes(LittleEndian32(b0, b1, b2, b3)) == [b0, b1, b2, b3]
    ensures var b := LittleEndianBytes(x); LittleEndian32(b[0], b[1], b[2], b[3]) == x
  {
    LittleEndianBytesOfWord(b0, b1, b2, b3);
    LittleEndianWordOfBytes(x);
  }

  /** The NXP system information a reply carries. */
  datatype NxpSystemInfo = NxpSystemInfo(
    protectionPointer: byte,
    protectionCondition: byte,
    lockAfi: bool,
    lockEas: bool,
    lockDsfid: bool,
    lockPpl: bool,
    featureFlags: bv32)

  /** Bit `mask` of a byte, read as a boolean the way C converts `lock_bits & mask`. */
  predicate BitSet(b: byte, mask: byte) {
    b & mask != 0
  }

  /**
   * Decodes a trimmed reply: flags, protection pointer, protection condition,
   * lock bits, feature word. Only the first eight bytes are read.
   */
  function ParseNxpSystemInfo(r: seq<byte>): NxpSystemInfo
    requires |r| >= 8
  {
    var lockBits := r[3];
    NxpSystemInfo(
      r[1], r[2],
      BitSet(lockBits, 0x01), BitSet(lockBits, 0x02), BitSet(lockBits, 0x04), BitSet(lockBits, 0x08),
      LittleEndian32(r[4], r[5], r[6], r[7]))
  }

  /** The NXP system information reply checks, with `size` the length they demand after the CRC. */
  function CheckedNxpSystemInfo(reply: TrxReply, size: nat): Result<NxpSystemInfo>
    requires size >= 8
  {
    var e := ProcessNfcError(reply.error);
    if e != SlixPollerError.None then Err(e)
    else if !Crc.CrcChecks(reply.bytes) then Err(SlixPollerError.Protocol)
    else
      var r := Crc.Trim(reply.bytes);
      if |r| != size then Err(SlixPollerError.Protocol)
      else if ErrorFlagSet(r[0]) then Err(SlixPollerError.Protocol)
      else Ok(ParseNxpSystemInfo(r))
  }

  /** Outcome of the NXP system information reply checks as the source makes them: nine bytes after the CRC. */
  function NxpSystemInfoResult(reply: TrxReply): Result<NxpSystemInfo> {
    CheckedNxpSystemInfo(reply, NxpSystemInfoReplySize)
  }

  /** The record after a successful NXP system information exchange. */
  function ApplyNxpSystemInfo(rec: SlixRecord, info: NxpSystemInfo): SlixRecord {
    rec.(
      slixInfo := SlixInfo(info.protectionPointer, info.protectionCondition, info.lockEas, info.lockPpl, info.featureFlags),
      lockBits := LockBits(info.lockDsfid, info.lockAfi))
  }

  /**
   * The reply is accepted exactly when the transport succeeded, the CRC checks,
   * nine bytes remain after the CRC and the error flag is clear; a timeout
   * stays a timeout and every other failure is a protocol error.
   */
  lemma NxpSystemInfoResultCases(reply: TrxReply)
    ensures NxpSystemInfoResult(reply).Ok? <==>
      && reply.error == NfcError.None && Crc.CrcChecks(reply.bytes)
      && |reply.bytes| == NxpSystemInfoReplySize + Crc.CrcSize && !ErrorFlagSet(reply.bytes[0])
    ensures NxpSystemInfoResult(reply) == Err(SlixPollerError.Timeout) <==> reply.error == NfcError.Timeout
    ensures NxpSystemInfoResult(reply).Err? ==>
      NxpSystemInfoResult(reply).error in {SlixPollerError.Timeout, SlixPollerError.Protocol}
  {
  }

  /** The lock-bits byte a tag sends for four lock states: AFI mask 0x01, EAS 0x02, DSFID 0x04, PPL 0x08. */
  function LockByte(afi: bool, eas: bool, dsfid: bool, ppl: bool): byte {
    (if afi then 0x01 else 0x00) | (if eas then 0x02 else 0x00)
    | (if dsfid then 0x04 else 0x00) | (if ppl then 0x08 else 0x00)
  }

  /**
   * What a tag sends for `info` before the CRC: flags, protection pointer,
   * protection condition, lock bits and the feature word, little-endian.
   */
  function NxpSystemInfoTagBody(flags: byte, info: NxpSystemInfo): (b: seq<byte>)
    ensures |b| == 8
  {
    [flags, info.protectionPointer, info.protectionCondition,
     LockByte(info.lockAfi, info.lockEas, info.lockDsfid, info.lockPpl)]
    + LittleEndianBytes(info.featureFlags)
  }

  /** A tag's reply for `info`: its eight bytes and the CRC. */
  function NxpSystemInfoTagReply(flags: byte, info: NxpSystemInfo): seq<byte> {
    Crc.Append(NxpSystemInfoTagBody(flags, info))
  }

  /**
   * The reply the length check demands for `info`: the tag's eight bytes, one
   * further byte `last` that nothing reads, and the CRC.
   */
  function NxpSystemInfoPaddedReply(flags: byte, info: NxpSystemInfo, last: byte): seq<byte> {
    Crc.Append(NxpSystemInfoTagBody(flags, info) + [last])
  }

  /** Every field of a tag's eight bytes is decoded back out of them. */
  lemma ParseNxpSystemInfoTagBody(flags: byte, info: NxpSystemInfo, r: seq<byte>)
    requires |r| >= 8 && r[..8] == NxpSystemInfoTagBody(flags, info)
    ensures r[0] == flags && ParseNxpSystemInfo(r) == info
  {
    var f := LittleEndianBytes(info.featureFlags);
    assert r[4] == f[0] && r[5] == f[1] && r[6] == f[2] && r[7] == f[3] by {
      assert r[..8][4..] == f;
    }
    LittleEndianWordOfBytes(info.featureFlags);
    assert r[1] == r[..8][1] && r[2] == r[..8][2] && r[3] == r[..8][3] && r[0] == r[..8][0];
  }

  /**
   * A reply padded to the length the source demands gives back every field,
   * the four lock bits and the little-endian feature word included; with the
   * error flag set it is a protocol error.
   */
  lemma NxpSystemInfoRoundTrip(flags: byte, info: NxpSystemInfo, last: byte)
    ensures NxpSystemInfoResult(TrxReply(NfcError.None, NxpSystemInfoPaddedReply(flags, info, last)))
         == if ErrorFlagSet(flags) then Err(SlixPollerError.Protocol) else Ok(info)
  {
    var body := NxpSystemInfoTagBody(flags, info) + [last];
    Crc.AppendChecks(body);
    assert body[..8] == NxpSystemInfoTagBody(flags, info);
    ParseNxpSystemInfoTagBody(flags, info, body);
  }

  /**
   * The source refuses every reply a tag sends: eight bytes after the CRC never
   * pass its check for nine, so the result is a protocol error whatever the
   * flags and the information.
   */
  lemma NxpSystemInfoRefusesTagReply(flags: byte, info: NxpSystemInfo)
    ensures NxpSystemInfoResult(TrxReply(NfcError.None, NxpSystemInfoTagReply(flags, info)))
         == Err(SlixPollerError.Protocol)
  {
    Crc.AppendChecks(NxpSystemInfoTagBody(flags, info));
  }

  /** Length of the NXP system information reply a tag sends, without its CRC. */
  const NxpSystemInfoTagSize: nat := 8

  /** The reply checks with the length a tag's reply has: eight bytes after the CRC. */
  function NxpSystemInfoResultIntended(reply: TrxReply): Result<NxpSystemInfo> {
    CheckedNxpSystemInfo(reply, NxpSystemInfoTagSize)
  }

  /** With the intended length, a tag's reply gives back every field it encodes, or a protocol error when its error flag is set. */
  lemma NxpSystemInfoIntendedRoundTrip(flags: byte, info: NxpSystemInfo)
    ensures NxpSystemInfoResultIntended(TrxReply(NfcError.None, NxpSystemInfoTagReply(flags, info)))
         == if ErrorFlagSet(flags) then Err(SlixPollerError.Protocol) else Ok(info)
  {
    var body := NxpSystemInfoTagBody(flags, info);
    Crc.AppendChecks(body);
    assert body[..8] == body;
    ParseNxpSystemInfoTagBody(flags, info, body);
  }

  /** The ninth byte after the CRC is required but never read: replies differing only there decode alike. */
  lemma NxpSystemInfoIgnoresLastByte(r: seq<byte>, s: seq<byte>)
    requires |r| == |s| == NxpSystemInfoReplySize && r[..8] == s[..8]
    ensures ParseNxpSystemInfo(r) == ParseNxpSystemInfo(s)
  {
    forall i | 0 <= i < 8
      ensures r[i] == s[i]
    {
      assert r[i] == r[..8][i] && s[i] == s[..8][i];
    }
  }

  /** Applying system information changes only the vendor info and the two ISO lock bits it reports. */
  lemma ApplyNxpSystemInfoFrame(rec: SlixRecord, info: NxpSystemInfo)
    ensures var out := ApplyNxpSystemInfo(rec, info);
      && out.uid == rec.uid && out.signature == rec.signature && out.signatureRead == rec.signatureRead
      && out.slixInfo.protectionPointer == info.protectionPointer
      && out.slixInfo.protectionCondition == info.protectionCondition
      && out.lockBits.afi == info.lockAfi && out.slixInfo.lockEas == info.lockEas
      && out.lockBits.dsfid == info.lockDsfid && out.slixInfo.lockPpl == info.lockPpl
      && out.slixInfo.featureFlags == info.featureFlags
      && (WellFormed(rec) ==> WellFormed(out))
  {
  }

  /** Outcome of the signature reply checks. */
  function SignatureResult(reply: TrxReply): Result<seq<byte>> {
    var e := ProcessNfcError(reply.error);
    if e != SlixPollerError.None then Err(e)
    else if !Crc.CrcChecks(reply.bytes) then Err(SlixPollerError.Protocol)
    else
      var r := Crc.Trim(reply.bytes);
      if |r| != SignatureReplySize then Err(SlixPollerError.Protocol)
      else if ErrorFlagSet(r[0]) then Err(SlixPollerError.Protocol)
      else Ok(r[1..])
  }

  /**
   * The signature is accepted exactly when the transport succeeded, the CRC
   * checks, 33 bytes remain and the error flag is clear; it is then bytes 1..32
   * of the reply.
   */
  lemma SignatureResultCases(reply: TrxReply)
    ensures SignatureResult(reply).Ok? <==>
      && reply.error == NfcError.None && Crc.CrcChecks(reply.bytes)
      && |reply.bytes| == SignatureReplySize + Crc.CrcSize && !ErrorFlagSet(reply.bytes[0])
    ensures SignatureResult(reply).Ok? ==>
      |SignatureResult(reply).value| == SignatureSize && SignatureResult(reply).value == reply.bytes[1..33]
    ensures SignatureResult(reply) == Err(SlixPollerError.Timeout) <==> reply.error == NfcError.Timeout
    ensures SignatureResult(reply).Err? ==>
      SignatureResult(reply).error in {SlixPollerError.Timeout, SlixPollerError.Protocol}
  {
    if SignatureResult(reply).Ok? {
      assert Crc.Trim(reply.bytes)[1..] == reply.bytes[1..33];
    }
  }

  /** A tag's signature reply gives back the signature it carries. */
  lemma SignatureRoundTrip(flags: byte, signature: seq<byte>)
    requires |signature| == SignatureSize
    ensures SignatureResult(TrxReply(NfcError.None, Crc.Append([flags] + signature)))
         == if ErrorFlagSet(flags) then Err(SlixPollerError.Protocol) else Ok(signature)
  {
    Crc.AppendChecks([flags] + signature);
    assert ([flags] + signature)[1..] == signature;
  }

  // ---------------------------------------------------------------------------
  // The poller

  /**
   * What these exchanges use of the poller instance: the record, the two
   * buffers of `struct SlixPoller`, and the transceiver the code reaches as
   * `instance->nfc`, which that struct does not declare.
   */
  class SlixPoller {
    const nfc: Nfc
    const slixData: SlixData
    const txBuffer: BitBuffer
    const rxBuffer: BitBuffer

    ghost predicate Valid()
      reads this, slixData, txBuffer, rxBuffer
    {
      && slixData.Valid()
      && txBuffer != rxBuffer
      && txBuffer.capacity == MaxBufferSize && txBuffer.Valid()
      && rxBuffer.capacity == MaxBufferSize && rxBuffer.Valid()
    }

    constructor (nfc: Nfc, slixData: SlixData)
      requires slixData.Valid()
      ensures Valid()
      ensures this.nfc == nfc && this.slixData == slixData
      ensures fresh(txBuffer) && fresh(rxBuffer)
    {
      this.nfc := nfc;
      this.slixData := slixData;
      txBuffer := new BitBuffer(MaxBufferSize);
      rxBuffer := new BitBuffer(MaxBufferSize);
    }

    /** `slix_poller_write_block`: one exchange; the record is never written. */
    method WriteBlock(blockNum: byte, data: seq<byte>, reply: TrxReply) returns (error: SlixPollerError)
      requires Valid() && |data| == BlockSize
      requires |reply.bytes| <= MaxBufferSize
      requires WriteBlockReplyReadable(reply)
      modifies txBuffer, rxBuffer, nfc
      ensures Valid()
      ensures txBuffer.bytes == WriteBlockRequest(slixData.uid, blockNum, data)
      ensures nfc.exchanges == old(nfc.exchanges) + [Exchange(txBuffer.bytes, MaxFwt)]
      ensures rxBuffer.bytes == RxAfterCheck(reply)
      ensures error == WriteBlockResult(reply)
      ensures unchanged(slixData)
    {
      txBuffer.Reset();
      txBuffer.AppendByte(AddressedFlags);
      txBuffer.AppendByte(CmdWriteBlock);
      txBuffer.AppendBytes(slixData.uid);
      txBuffer.AppendByte(blockNum);
      txBuffer.AppendBytes(data);
      assert txBuffer.bytes == RequestBody(Request(AddressedFlags, CmdWriteBlock, Option.None, Some(slixData.uid), [blockNum] + data));
      txBuffer.AppendCrc();

      var nfcError := nfc.Trx(txBuffer, rxBuffer, MaxFwt, reply);
      error := ProcessNfcError(nfcError);

      if error == SlixPollerError.None {
        if rxBuffer.CrcCheck() {
          rxBuffer.TrimCrc();
          var respFlags := rxBuffer.GetByte(0);
          if ErrorFlagSet(respFlags) {
            error := SlixPollerError.Protocol;
          }
        } else {
          error := SlixPollerError.Protocol;
        }
      }
    }

    /** The field writes of an accepted NXP system information reply, in the source's order. */
    method StoreNxpSystemInfo(resp: seq<byte>)
      requires |resp| == NxpSystemInfoReplySize
      modifies slixData
      ensures slixData.Snapshot() == ApplyNxpSystemInfo(old(slixData.Snapshot()), ParseNxpSystemInfo(resp))
    {
      slixData.slixInfo := slixData.slixInfo.(protectionPointer := resp[1]);
      slixData.slixInfo := slixData.slixInfo.(protectionCondition := resp[2]);
      var lockBits := resp[3];
      slixData.lockBits := slixData.lockBits.(afi := BitSet(lockBits, 0x01));
      slixData.slixInfo := slixData.slixInfo.(lockEas := BitSet(lockBits, 0x02));
      slixData.lockBits := slixData.lockBits.(dsfid := BitSet(lockBits, 0x04));
      slixData.slixInfo := slixData.slixInfo.(lockPpl := BitSet(lockBits, 0x08));
      slixData.slixInfo := slixData.slixInfo.(featureFlags := LittleEndian32(resp[4], resp[5], resp[6], resp[7]));
    }

    /**
     * `slix_poller_get_nxp_system_info`: one exchange; only an accepted reply
     * writes the record, and then only the fields it reports.
     */
    method GetNxpSystemInfo(reply: TrxReply) returns (error: SlixPollerError)
      requires Valid()
      requires |reply.bytes| <= MaxBufferSize
      modifies txBuffer, rxBuffer, nfc, slixData
      ensures Valid()
      ensures txBuffer.bytes == NxpSystemInfoRequest(slixData.uid)
      ensures nfc.exchanges == old(nfc.exchanges) + [Exchange(txBuffer.bytes, MaxFwt)]
      ensures rxBuffer.bytes == RxAfterCheck(reply)
      ensures error == match NxpSystemInfoResult(reply)
        case Ok(_) => SlixPollerError.None
        case Err(e) => e
      ensures slixData.Snapshot() == match NxpSystemInfoResult(reply)
        case Ok(info) => ApplyNxpSystemInfo(old(slixData.Snapshot()), info)
        case Err(_) => old(slixData.Snapshot())
    {
      txBuffer.Reset();
      txBuffer.AppendByte(AddressedFlags);
      txBuffer.AppendByte(CmdGetNxpSystemInformation);
      txBuffer.AppendByte(NxpManufacturerCode);
      txBuffer.AppendBytes(slixData.uid);
      assert txBuffer.bytes == RequestBody(Request(AddressedFlags, CmdGetNxpSystemInformation,
        Some(NxpManufacturerCode), Some(slixData.uid), []));
      txBuffer.AppendCrc();

      var nfcError := nfc.Trx(txBuffer, rxBuffer, MaxFwt, reply);
      error := ProcessNfcError(nfcError);

      if error == SlixPollerError.None {
        if rxBuffer.CrcCheck() {
          rxBuffer.TrimCrc();
          if rxBuffer.SizeBytes() == NxpSystemInfoReplySize {
            var resp := rxBuffer.bytes;
            if ErrorFlagSet(resp[0]) {
              error := SlixPollerError.Protocol;
            } else {
              StoreNxpSystemInfo(resp);
            }
          } else {
            error := SlixPollerError.Protocol;
          }
        } else {
          error := SlixPollerError.Protocol;
        }
      }
    }

    /**
     * `slix_poller_read_signature`: one exchange with twice the usual deadline;
     * only an accepted reply writes the record, and then only `signature`.
     */
    method ReadSignature(reply: TrxReply) returns (error: SlixPollerError)
      requires Valid()
      requires |reply.bytes| <= MaxBufferSize
      modifies txBuffer, rxBuffer, nfc, slixData
      ensures Valid()
      ensures txBuffer.bytes == ReadSignatureRequest(slixData.uid)
      ensures nfc.exchanges == old(nfc.exchanges) + [Exchange(txBuffer.bytes, MaxFwt * 2)]
      ensures rxBuffer.bytes == RxAfterCheck(reply)
      ensures error == match SignatureResult(reply)
        case Ok(_) => SlixPollerError.None
        case Err(e) => e
      ensures slixData.Snapshot() == match SignatureResult(reply)
        case Ok(signature) => old(slixData.Snapshot()).(signature := signature)
        case Err(_) => old(slixData.Snapshot())
    {
      txBuffer.Reset();
      txBuffer.AppendByte(AddressedFlags);
      txBuffer.AppendByte(CmdReadSignature);
      txBuffer.AppendByte(NxpManufacturerCode);
      txBuffer.AppendBytes(slixData.uid);
      assert txBuffer.bytes == RequestBody(Request(AddressedFlags, CmdReadSignature,
        Some(NxpManufacturerCode), Some(slixData.uid), []));
      txBuffer.AppendCrc();

      var nfcError := nfc.Trx(txBuffer, rxBuffer, MaxFwt * 2, reply);
      error := ProcessNfcError(nfcError);

      if error == SlixPollerError.None {
        if rxBuffer.CrcCheck() {
          rxBuffer.TrimCrc();
          if rxBuffer.SizeBytes() == SignatureReplySize {
            var resp := rxBuffer.bytes;
            if ErrorFlagSet(resp[0]) {
              error := SlixPollerError.Protocol;
            } else {
              slixData.signature := resp[1..1 + SignatureSize];
            }
          } else {
            error := SlixPollerError.Protocol;
          }
        } else {
          error := SlixPollerError.Protocol;
        }
      }
    }
  }
}
