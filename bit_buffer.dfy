/**
 * The firmware's byte buffer (`BitBuffer`) as far as the SLIX code uses it:
 * a buffer of fixed capacity that is reset, appended to, read and trimmed in
 * place. The library itself is not part of this model; its byte-granular
 * operations are modelled with the capacity checks the library makes on every
 * append, and the CRC helpers that work on a buffer are methods here.
 */
module BitBuffers {
  import Crc = Iso13239Crc

  type byte = Crc.byte

  class BitBuffer {
    /** Capacity in bytes, fixed at allocation. */
    const capacity: nat
    /** The bytes currently held, in order. */
    var bytes: seq<byte>

    ghost predicate Valid()
      reads this
    {
      |bytes| <= capacity
    }

    /** `bit_buffer_alloc(capacity)`: an empty buffer. */
    constructor (capacity: nat)
      ensures Valid()
      ensures this.capacity == capacity && bytes == []
    {
      this.capacity := capacity;
      bytes := [];
    }

    /** `bit_buffer_get_size_bytes`. */
    function SizeBytes(): (n: nat)
      reads this
      ensures n == |bytes|
    {
      |bytes|
    }

    /**
     * `bit_buffer_get_byte`. The library is not part of this model; its index
     * check is assumed to be against the contents, so an index past them is
     * excluded by the precondition.
     */
    function GetByte(index: nat): byte
      reads this
      requires index < |bytes|
    {
      bytes[index]
    }

    /** `bit_buffer_reset`: the buffer becomes empty. */
    method Reset()
      modifies this
      ensures bytes == []
    {
      bytes := [];
    }

    /** `bit_buffer_append_byte`: the library refuses to write past the capacity. */
    method AppendByte(b: byte)
      requires Valid() && |bytes| < capacity
      modifies this
      ensures Valid()
      ensures bytes == old(bytes) + [b]
    {
      bytes := bytes + [b];
    }

    /** `bit_buffer_append_bytes`. */
    method AppendBytes(bs: seq<byte>)
      requires Valid() && |bytes| + |bs| <= capacity
      modifies this
      ensures Valid()
      ensures bytes == old(bytes) + bs
    {
      bytes := bytes + bs;
    }

    /** What the transceiver writes into a receive buffer: the received bytes. */
    method SetBytes(bs: seq<byte>)
      requires |bs| <= capacity
      modifies this
      ensures Valid()
      ensures bytes == bs
    {
      bytes := bs;
    }

    /** `iso13239_crc_append`: the CRC of the contents, low byte first. */
    method AppendCrc()
      requires Valid() && |bytes| + Crc.CrcSize <= capacity
      modifies this
      ensures Valid()
      ensures bytes == Crc.Append(old(bytes))
    {
      bytes := Crc.Append(bytes);
    }

    /** `iso13239_crc_check`: the last two bytes are the CRC of the rest. */
    predicate CrcCheck()
      reads this
    {
      Crc.CrcChecks(bytes)
    }

    /** `iso13239_crc_trim`: drops the two CRC bytes. */
    method TrimCrc()
      requires Valid() && |bytes| >= Crc.CrcSize
      modifies this
      ensures Valid()
      ensures bytes == Crc.Trim(old(bytes))
    {
      bytes := Crc.Trim(bytes);
    }
  }
}
