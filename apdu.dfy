/**
 * The card as the driver sees it: commands sent, status words and bytes
 * received. The transport (`sc_transmit_apdu`) is an oracle: the reply to a
 * command is whatever a given function of the whole command history says, so
 * any card, stateful or not, is covered.
 */
module Apdu {
  import opened Bytes

  /** The error codes the driver returns (SC_ERROR_...). */
  datatype Error =
    | InvalidArguments
    | Internal
    | FileNotFound
    | UnknownDataReceived
    | TransmitFailed(code: int)        // a transport error, propagated unchanged
    | CardStatus(sw1: byte, sw2: byte) // any other status word the card rejected a command with

  datatype Outcome = Success | Failure(error: Error)

  /** A value or the error that prevented it. */
  datatype Result<T> = Ok(value: T) | Err(error: Error)

  /**
   * Stand-in for `sc_check_sw`, which is not part of this model: `90 00` is
   * success, `6A 82` is "file not found", every other status word is an error
   * that carries it.
   */
  function CheckSw(sw1: byte, sw2: byte): (r: Outcome)
    ensures r.Success? <==> sw1 == 0x90 && sw2 == 0x00
    ensures r == Failure(FileNotFound) <==> sw1 == 0x6A && sw2 == 0x82
  {
    if sw1 == 0x90 && sw2 == 0x00 then Success
    else if sw1 == 0x6A && sw2 == 0x82 then Failure(FileNotFound)
    else Failure(CardStatus(sw1, sw2))
  }

  /** P1 of SELECT (ISO/IEC 7816-4, INS A4) as this card understands it. */
  const SelMf: byte := 0x00
  const SelDf: byte := 0x01
  const SelEf: byte := 0x02
  const SelAid: byte := 0x04

  /** The commands the driver sends (class byte 00 throughout). */
  datatype Command =
    | Select(p1: byte, data: seq<byte>, wantsFci: bool) // 00 A4 p1 00, Le present only when the FCI is wanted
    | ReadRecord(recno: byte)                          // 00 B2 recno 04, Le = 200
    | RestoreSe(seNum: byte)                           // 00 22 F3 seNum
    | SetSe(p2: byte, data: seq<byte>)                 // 00 22 41 p2 data
    | PerformSignature(data: seq<byte>)                // 00 2A 9E 9A data
    | GetResponse                                      // 00 C0 00 00, Le = 0x80

  /** What the transport hands back: a status word and response bytes, or a transport error. */
  datatype Reply = Reply(sw1: byte, sw2: byte, data: seq<byte>) | TransmitError(code: int)

  /** The card's behaviour: the reply to a command, given everything sent before it. */
  type Oracle = (seq<Command>, Command) -> Reply

  /** The reader with its card; `log` is every command sent so far, in order. */
  class Card {
    const respond: Oracle
    var log: seq<Command>

    constructor (respond: Oracle)
      ensures this.respond == respond && log == []
    {
      this.respond := respond;
      log := [];
    }

    /** Sends one command and returns the card's reply to it. */
    method Transmit(cmd: Command) returns (reply: Reply)
      modifies this
      ensures log == old(log) + [cmd]
      ensures reply == respond(old(log), cmd)
    {
      reply := respond(log, cmd);
      log := log + [cmd];
    }
  }
}
