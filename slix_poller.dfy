/**
 * Tag detection (magic/protocols/slix/slix_poller.c): when the transceiver is
 * ready, the callback sends one INVENTORY request and, when the answer
 * arrived without a transport error, is long enough and has its error flag
 * clear, records the UID and marks the tag detected. The callback always tells the transceiver to stop and always wakes
 * the waiting thread.
 *
 * The waiting thread, the 200 ms timeout and the transceiver's start and stop
 * are not part of this model; `Detect` takes as input whether the transceiver
 * delivered an event before the timeout and which one.
 */
module SlixDetect {
  import Crc = Iso13239Crc
  import opened Iso15693Frame
  import opened BitBuffers
  import opened NfcTransport
  import opened Slix

  /** Capacity of the detection buffers; an INVENTORY answer is 12 bytes. */
  const DetectBufferSize: nat := 32
  /** The firmware's ISO 15693-3 poller frame delay time, in carrier cycles; its header is not part of this model. */
  const FdtPollFc: nat := 4202
  /** The INVENTORY deadline: twice the frame delay time. */
  const InventoryDeadline: nat := FdtPollFc * 2
  /** Flags, DSFID, UID and CRC. */
  const InventoryReplySize: nat := 2 + UidLength + Crc.CrcSize

  /** The answer the callback accepts: no transport error, at least 12 bytes, error flag clear. The CRC is not checked. */
  predicate InventoryAccepted(reply: TrxReply) {
    && reply.error == NfcError.None
    && |reply.bytes| >= InventoryReplySize
    && !ErrorFlagSet(reply.bytes[0])
  }

  /** The UID of an INVENTORY answer: the eight bytes after flags and DSFID, as received. */
  function InventoryUid(bytes: seq<byte>): (uid: seq<byte>)
    requires |bytes| >= InventoryReplySize
    ensures |uid| == UidLength
  {
    bytes[2..2 + UidLength]
  }

  /** The record after the callback has seen `reply`: only the UID changes, and only on acceptance. */
  function AfterInventory(rec: SlixRecord, reply: TrxReply): SlixRecord {
    if InventoryAccepted(reply) then rec.(uid := InventoryUid(reply.bytes)) else rec
  }

  /** What `slix_poller_detect` returns: a ready event arrived before the timeout and its answer was accepted. */
  predicate Detected(event: Option<NfcEventType>, reply: TrxReply) {
    event == Some(PollerReady) && InventoryAccepted(reply)
  }

  /** `SlixPollerDetectContext`: what the callback reads and writes. */
  class DetectContext {
    const nfc: Nfc
    const txBuffer: BitBuffer
    const rxBuffer: BitBuffer
    var detected: bool
    const slixData: SlixData
    /** Whether the callback has set the DETECTED thread flag. */
    ghost var signalled: bool

    ghost predicate Valid()
      reads this, txBuffer, rxBuffer, slixData
    {
      && txBuffer != rxBuffer
      && txBuffer.capacity == DetectBufferSize && txBuffer.Valid()
      && rxBuffer.capacity == DetectBufferSize && rxBuffer.Valid()
      && slixData.Valid()
    }

    /** The context `slix_poller_detect` sets up: fresh buffers, nothing detected yet. */
    constructor (nfc: Nfc, slixData: SlixData)
      requires slixData.Valid()
      ensures Valid()
      ensures this.nfc == nfc && this.slixData == slixData
      ensures fresh(txBuffer) && fresh(rxBuffer)
      ensures !detected && !signalled
    {
      this.nfc := nfc;
      this.slixData := slixData;
      txBuffer := new BitBuffer(DetectBufferSize);
      rxBuffer := new BitBuffer(DetectBufferSize);
      detected := false;
      signalled := false;
    }

    /**
     * `slix_poller_detect_callback`: on a ready event, one INVENTORY exchange;
     * any other event changes nothing. Either way the answer is Stop and the
     * waiting thread is woken.
     */
    method Callback(event: NfcEventType, reply: TrxReply) returns (command: NfcCommand)
      requires Valid()
      requires |reply.bytes| <= DetectBufferSize
      modifies this, txBuffer, rxBuffer, nfc, slixData
      ensures Valid()
      ensures command == Stop && signalled
      ensures event != PollerReady ==>
        && nfc.exchanges == old(nfc.exchanges)
        && unchanged(txBuffer, rxBuffer, slixData)
        && detected == old(detected)
      ensures event == PollerReady ==>
        && txBuffer.bytes == InventoryRequest()
        && nfc.exchanges == old(nfc.exchanges) + [Exchange(InventoryRequest(), InventoryDeadline)]
        && rxBuffer.bytes == reply.bytes
        && detected == (old(detected) || InventoryAccepted(reply))
        && slixData.Snapshot() == AfterInventory(old(slixData.Snapshot()), reply)
    {
      command := Stop;
      if event == PollerReady {
        BuildInventoryRequest(txBuffer);
        var error := nfc.Trx(txBuffer, rxBuffer, InventoryDeadline, reply);
        if error == NfcError.None {
          if rxBuffer.SizeBytes() >= InventoryReplySize {
            var flags := rxBuffer.GetByte(0);
            if !ErrorFlagSet(flags) {
              detected := true;
              slixData.uid := rxBuffer.bytes[2..2 + UidLength];
            }
          }
        }
      }
      signalled := true;
    }
  }

  /**
   * `slix_poller_detect`: `event` is what the transceiver delivered before the
   * timeout, if anything; the result is whether a tag was detected.
   */
  method Detect(nfc: Nfc, slixData: SlixData, event: Option<NfcEventType>, reply: TrxReply) returns (detected: bool)
    requires slixData.Valid()
    requires |reply.bytes| <= DetectBufferSize
    modifies nfc, slixData
    ensures detected == Detected(event, reply)
    ensures nfc.exchanges == old(nfc.exchanges)
      + (if event == Some(PollerReady) then [Exchange(InventoryRequest(), InventoryDeadline)] else [])
    ensures slixData.Valid()
    ensures slixData.Snapshot() ==
      if event == Some(PollerReady) then AfterInventory(old(slixData.Snapshot()), reply) else old(slixData.Snapshot())
  {
    var ctx := new DetectContext(nfc, slixData);
    if event.Some? {
      var _ := ctx.Callback(event.value, reply);
    }
    detected := ctx.detected;
  }

  /** What a tag answers to INVENTORY: flags, DSFID, its UID, CRC. */
  function InventoryReply(flags: byte, dsfid: byte, uid: seq<byte>): seq<byte> {
    Crc.Append([flags, dsfid] + uid)
  }

  /** A tag's answer is accepted exactly when its error flag is clear, and the UID it carries is the one recorded. */
  lemma InventoryTagReply(flags: byte, dsfid: byte, uid: seq<byte>)
    requires |uid| == UidLength
    ensures |InventoryReply(flags, dsfid, uid)| == InventoryReplySize
    ensures InventoryAccepted(TrxReply(NfcError.None, InventoryReply(flags, dsfid, uid))) <==> !ErrorFlagSet(flags)
    ensures InventoryUid(InventoryReply(flags, dsfid, uid)) == uid
  {
    var body := [flags, dsfid] + uid;
    assert Crc.Append(body)[..|body|] == body;
    assert Crc.Append(body)[2..2 + UidLength] == body[2..] == uid;
  }

  /**
   * Detection does not check the CRC: a tag's answer corrupted anywhere after
   * the flags byte fails the CRC check and is still accepted.
   */
  lemma InventoryCrcNotChecked(flags: byte, dsfid: byte, uid: seq<byte>, i: nat, d: byte)
    requires |uid| == UidLength && !ErrorFlagSet(flags)
    requires 0 < i < InventoryReplySize && d != 0
    ensures var received := Crc.Corrupt(InventoryReply(flags, dsfid, uid), i, d);
      && !Crc.CrcChecks(received)
      && InventoryAccepted(TrxReply(NfcError.None, received))
  {
    var body := [flags, dsfid] + uid;
    Crc.SingleByteErrorDetected(body, i, d);
    assert Crc.Append(body)[0] == flags;
  }

  /** Detection looks only at the transport error, the length and the first byte. */
  lemma InventoryAcceptanceDependsOnFlagsOnly(reply: TrxReply, other: TrxReply)
    requires reply.error == other.error
    requires |reply.bytes| >= InventoryReplySize && |other.bytes| >= InventoryReplySize
    requires reply.bytes[0] == other.bytes[0]
    ensures InventoryAccepted(reply) == InventoryAccepted(other)
  {
  }
}
