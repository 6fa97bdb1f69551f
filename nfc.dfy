/**
 * The radio transceiver as the SLIX code sees it. Its internals (field
 * control, modulation, timing) are not part of this model: one exchange sends
 * the transmit buffer and delivers whatever the tag answered, so the answer is
 * an input to the model — a transport error and the received bytes. The
 * transceiver keeps a ghost log of the frames sent and the deadline given for
 * each, so that contracts can say how many exchanges an operation makes and
 * with what.
 */
module NfcTransport {
  import Crc = Iso13239Crc
  import opened BitBuffers

  type byte = Crc.byte

  /** Transport errors; every error other than a timeout is folded into `Other`. */
  datatype NfcError = None | Timeout | Other(code: nat)

  /** Events the transceiver delivers to a poller callback. */
  datatype NfcEventType = PollerReady | OtherEvent(code: nat)

  /** What a poller callback tells the transceiver to do next. */
  datatype NfcCommand = Continue | Stop

  /** What one exchange delivered: a transport error and the received bytes. */
  datatype TrxReply = TrxReply(error: NfcError, bytes: seq<byte>)

  /** One exchange as the transceiver saw it: the frame sent and the response deadline. */
  datatype Exchange = Exchange(frame: seq<byte>, deadline: nat)

  class Nfc {
    /** Every exchange performed so far, oldest first. */
    ghost var exchanges: seq<Exchange>

    constructor ()
      ensures exchanges == []
    {
      exchanges := [];
    }

    /**
     * `nfc_poller_trx`: sends the contents of `tx`, waits at most `deadline`
     * carrier cycles, and leaves the tag's answer in `rx`.
     */
    method Trx(tx: BitBuffer, rx: BitBuffer, deadline: nat, reply: TrxReply) returns (error: NfcError)
      requires tx != rx
      requires |reply.bytes| <= rx.capacity
      modifies this, rx
      ensures rx.Valid() && rx.bytes == reply.bytes
      ensures error == reply.error
      ensures exchanges == old(exchanges) + [Exchange(tx.bytes, deadline)]
    {
      exchanges := exchanges + [Exchange(tx.bytes, deadline)];
      rx.SetBytes(reply.bytes);
      error := reply.error;
    }
  }
}
