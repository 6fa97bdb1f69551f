/**
 * ISO/IEC 15693-3 request frames: `[flags][command][manufacturer code, vendor
 * commands only][UID, addressed commands only][parameters][CRC, low byte first]`.
 *
 * The flag and command values come from the firmware's ISO 15693-3 header,
 * which is not part of this model; the constants below are the values
 * ISO/IEC 15693-3 assigns to them (section 7.3 for the flags, section 10 for
 * the command codes).
 */
module Iso15693Frame {
  import Crc = Iso13239Crc

  type byte = Crc.byte

  /** Request flag: high data rate, mask 0x02. */
  const ReqFlagDataRateHigh: byte := 0x02
  /** Request flag: inventory, mask 0x04. */
  const ReqFlagInventory: byte := 0x04
  /** Request flag, inventory form: a single slot, mask 0x20. */
  const ReqFlagOneSlot: byte := 0x20
  /** Request flag, non-inventory form: addressed, the UID follows the command, mask 0x20. */
  const ReqFlagAddressed: byte := 0x20
  /** Response flag: the tag reports an error, mask 0x01. */
  const RespFlagError: byte := 0x01

  /** Command code of INVENTORY. */
  const CmdInventory: byte := 0x01
  /** Command code of WRITE SINGLE BLOCK. */
  const CmdWriteBlock: byte := 0x21

  /** A UID is eight bytes, least significant byte first on the air. */
  const UidLength: nat := 8
  /** A SLIX memory block is four bytes. */
  const BlockSize: nat := 4

  /** Bit 0 of a response-flags byte: the tag reports an error. */
  predicate ErrorFlagSet(flags: byte) {
    flags & RespFlagError != 0
  }

  datatype Option<T> = None | Some(value: T)

  /** A request before serialisation: the optional parts are the manufacturer code and the UID. */
  datatype Request = Request(
    flags: byte,
    command: byte,
    manufacturer: Option<byte>,
    address: Option<seq<byte>>,
    payload: seq<byte>)

  function OptionalByte(o: Option<byte>): seq<byte> {
    match o
    case None => []
    case Some(b) => [b]
  }

  function OptionalBytes(o: Option<seq<byte>>): seq<byte> {
    match o
    case None => []
    case Some(bs) => bs
  }

  /** The bytes a request puts on the air before its CRC. */
  function RequestBody(r: Request): seq<byte> {
    [r.flags, r.command] + OptionalByte(r.manufacturer) + OptionalBytes(r.address) + r.payload
  }

  /** The request with its CRC appended. */
  function EncodeRequest(r: Request): (frame: seq<byte>)
    ensures Crc.CrcChecks(frame) && Crc.Trim(frame) == RequestBody(r)
  {
    Crc.AppendChecks(RequestBody(r));
    Crc.Append(RequestBody(r))
  }

  /** What a receiving tag knows about a command: whether it is a vendor command, whether it is addressed, how many parameter bytes follow. */
  datatype Shape = Shape(vendor: bool, addressed: bool, payloadLength: nat)

  predicate HasShape(r: Request, sh: Shape) {
    && r.manufacturer.Some? == sh.vendor
    && r.address.Some? == sh.addressed
    && (r.address.Some? ==> |r.address.value| == UidLength)
    && |r.payload| == sh.payloadLength
  }

  /** Length of a request of this shape without its CRC. */
  function BodyLength(sh: Shape): nat {
    2 + (if sh.vendor then 1 else 0) + (if sh.addressed then UidLength else 0) + sh.payloadLength
  }

  /** How a tag reads a request frame of a known shape. */
  function ParseRequest(frame: seq<byte>, sh: Shape): (r: Option<Request>)
    ensures r.Some? <==> Crc.CrcChecks(frame) && |frame| == BodyLength(sh) + Crc.CrcSize
    ensures r.Some? ==> HasShape(r.value, sh) && EncodeRequest(r.value) == frame
  {
    if !Crc.CrcChecks(frame) || |frame| != BodyLength(sh) + Crc.CrcSize then None
    else
      var body := Crc.Trim(frame);
      var m := if sh.vendor then 1 else 0;
      var a := if sh.addressed then UidLength else 0;
      var r := Request(
        body[0], body[1],
        if sh.vendor then Some(body[2]) else None,
        if sh.addressed then Some(body[2 + m..2 + m + a]) else None,
        body[2 + m + a..]);
      assert RequestBody(r) == body;
      Crc.CheckedIsAppended(frame);
      Some(r)
  }

  /** A tag reads back exactly the request that was encoded. */
  lemma ParseEncode(r: Request, sh: Shape)
    requires HasShape(r, sh)
    ensures ParseRequest(EncodeRequest(r), sh) == Some(r)
  {
    var frame := EncodeRequest(r);
    var body := RequestBody(r);
    assert |body| == BodyLength(sh);
    var p := ParseRequest(frame, sh);
    assert p.Some?;
    var m := if sh.vendor then 1 else 0;
    var a := if sh.addressed then UidLength else 0;
    assert body[..2] == [r.flags, r.command];
    assert body[2..2 + m] == OptionalByte(r.manufacturer);
    assert body[2 + m..2 + m + a] == OptionalBytes(r.address);
    assert body[2 + m + a..] == r.payload;
  }
}
