/**
 * The SLIX tag record and the unaddressed INVENTORY request
 * (magic/protocols/slix/slix.c).
 */
module Slix {
  import Crc = Iso13239Crc
  import opened Iso15693Frame
  import opened BitBuffers

  /** A SLIX2 originality signature is 32 bytes. */
  const SignatureSize: nat := 32

  /** Vendor part of the NXP system information. */
  datatype SlixInfo = SlixInfo(
    protectionPointer: byte,
    protectionCondition: byte,
    lockEas: bool,
    lockPpl: bool,
    featureFlags: bv32)

  /** The ISO 15693-3 lock bits the vendor system information also reports. */
  datatype LockBits = LockBits(dsfid: bool, afi: bool)

  /** The value of a `SlixData` record: the fields the SLIX code reads or writes. */
  datatype SlixRecord = SlixRecord(
    uid: seq<byte>,
    slixInfo: SlixInfo,
    lockBits: LockBits,
    signature: seq<byte>,
    signatureRead: bool)

  /** The fixed-size arrays of the record have their sizes. */
  predicate WellFormed(r: SlixRecord) {
    |r.uid| == UidLength && |r.signature| == SignatureSize
  }

  /** The record with every byte zero, as `memset(data, 0, sizeof(SlixData))` leaves it. */
  function ZeroRecord(): SlixRecord {
    SlixRecord(
      seq(UidLength, _ => 0),
      SlixInfo(0, 0, false, false, 0),
      LockBits(false, false),
      seq(SignatureSize, _ => 0),
      false)
  }

  /** The zero record has full-size arrays, all zero, every flag clear and every number 0. */
  lemma ZeroRecordIsZero()
    ensures WellFormed(ZeroRecord())
    ensures forall i :: 0 <= i < |ZeroRecord().uid| ==> ZeroRecord().uid[i] == 0
    ensures forall i :: 0 <= i < |ZeroRecord().signature| ==> ZeroRecord().signature[i] == 0
    ensures ZeroRecord().slixInfo.protectionPointer == 0 && ZeroRecord().slixInfo.protectionCondition == 0
    ensures !ZeroRecord().slixInfo.lockEas && !ZeroRecord().slixInfo.lockPpl
    ensures ZeroRecord().slixInfo.featureFlags == 0
    ensures !ZeroRecord().lockBits.dsfid && !ZeroRecord().lockBits.afi
    ensures !ZeroRecord().signatureRead
  {
  }

  /** `SlixData`: one tag's record, updated in place by the poller. */
  class SlixData {
    var uid: seq<byte>
    var slixInfo: SlixInfo
    var lockBits: LockBits
    var signature: seq<byte>
    var signatureRead: bool

    ghost predicate Valid()
      reads this
    {
      WellFormed(Snapshot())
    }

    /** The record's current value. */
    function Snapshot(): SlixRecord
      reads this
    {
      SlixRecord(uid, slixInfo, lockBits, signature, signatureRead)
    }

    /** A record holding `initial`; `slix_alloc` leaves the memory as it finds it. */
    constructor (initial: SlixRecord)
      requires WellFormed(initial)
      ensures Valid() && Snapshot() == initial
    {
      uid := initial.uid;
      slixInfo := initial.slixInfo;
      lockBits := initial.lockBits;
      signature := initial.signature;
      signatureRead := initial.signatureRead;
    }

    /** `slix_reset`: every field becomes zero, whatever it held. */
    method Reset()
      modifies this
      ensures Valid()
      ensures Snapshot() == ZeroRecord()
    {
      var z := ZeroRecord();
      uid := z.uid;
      slixInfo := z.slixInfo;
      lockBits := z.lockBits;
      signature := z.signature;
      signatureRead := z.signatureRead;
    }

    /** `slix_copy(this, src)`: this record becomes a field-by-field copy of `src`, which is unchanged. */
    method Copy(src: SlixData)
      requires src.Valid()
      modifies this
      ensures Valid()
      ensures Snapshot() == old(src.Snapshot())
      ensures src.Snapshot() == old(src.Snapshot())
    {
      var v := src.Snapshot();
      uid := v.uid;
      slixInfo := v.slixInfo;
      lockBits := v.lockBits;
      signature := v.signature;
      signatureRead := v.signatureRead;
    }
  }

  /** Resetting is idempotent: a second reset of a reset record changes nothing. */
  method ResetTwice(data: SlixData)
    modifies data
    ensures data.Snapshot() == ZeroRecord()
  {
    data.Reset();
    var once := data.Snapshot();
    data.Reset();
    assert data.Snapshot() == once;
  }

  /** Flags of the INVENTORY request: inventory, one slot, high data rate. */
  const InventoryFlags: byte := ReqFlagInventory | ReqFlagOneSlot | ReqFlagDataRateHigh

  /** The INVENTORY request: no AFI, mask length 0, CRC. */
  function InventoryRequest(): seq<byte> {
    EncodeRequest(Request(InventoryFlags, CmdInventory, None, None, [0x00]))
  }

  /** The request is the five bytes `26 01 00 F6 0A`: flags, command, mask length, CRC low and high. */
  lemma InventoryRequestBytes()
    ensures InventoryRequest() == [0x26, 0x01, 0x00, 0xF6, 0x0A]
    ensures Crc.CrcChecks(InventoryRequest())
    ensures Crc.Trim(InventoryRequest()) == [InventoryFlags, CmdInventory, 0x00]
  {
    var body: seq<byte> := [0x26, 0x01, 0x00];
    assert InventoryFlags == 0x26;
    assert RequestBody(Request(InventoryFlags, CmdInventory, None, None, [0x00])) == body;
    assert Crc.ShiftBits(0xFFD9, 8) == 0x4BB3;
    assert Crc.ShiftBits(0x4BB2, 8) == 0x96D2;
    assert Crc.ShiftBits(0x96D2, 8) == 0xF509;
    Crc.RegisterSnoc(Crc.Preset, [], 0x26);
    assert [] + [0x26 as byte] == [0x26];
    assert Crc.UpdateByte(0xFFFF, 0x26) == 0x4BB3;
    assert Crc.RegisterFrom(Crc.Preset, [0x26]) == 0x4BB3;
    Crc.RegisterSnoc(Crc.Preset, [0x26], 0x01);
    assert [0x26 as byte] + [0x01 as byte] == [0x26, 0x01];
    assert Crc.UpdateByte(0x4BB3, 0x01) == 0x96D2;
    assert Crc.RegisterFrom(Crc.Preset, [0x26, 0x01]) == 0x96D2;
    Crc.RegisterSnoc(Crc.Preset, [0x26, 0x01], 0x00);
    assert [0x26 as byte, 0x01] + [0x00 as byte] == body;
    assert Crc.UpdateByte(0x96D2, 0x00) == 0xF509;
    assert Crc.RegisterFrom(Crc.Preset, body) == 0xF509;
    assert Crc.Crc(body) == 0x0AF6;
  }

  /** `slix_build_inventory_request`: the buffer holds the INVENTORY request and nothing of what it held before. */
  method BuildInventoryRequest(buf: BitBuffer)
    requires buf.capacity >= 5
    modifies buf
    ensures buf.Valid()
    ensures buf.bytes == InventoryRequest()
  {
    buf.Reset();
    buf.AppendByte(InventoryFlags);
    buf.AppendByte(CmdInventory);
    buf.AppendByte(0x00);
    assert buf.bytes == [InventoryFlags, CmdInventory, 0x00];
    buf.AppendCrc();
    assert RequestBody(Request(InventoryFlags, CmdInventory, None, None, [0x00])) == [InventoryFlags, CmdInventory, 0x00];
  }

  /** Building the request twice in a row leaves the same frame both times. */
  method BuildInventoryRequestTwice(buf: BitBuffer)
    requires buf.capacity >= 5
    modifies buf
    ensures buf.bytes == InventoryRequest()
  {
    BuildInventoryRequest(buf);
    var first := buf.bytes;
    BuildInventoryRequest(buf);
    assert buf.bytes == first;
  }
}
