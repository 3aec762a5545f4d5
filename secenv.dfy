/**
 * The argument checks and the command formats of `mcrd_set_security_env`
 * (MANAGE SECURITY ENVIRONMENT) and `mcrd_compute_signature` (PERFORM
 * SECURITY OPERATION: COMPUTE DIGITAL SIGNATURE), as functions of the card's
 * replies. The driver's methods (module Mcrd) are proved equal to them.
 */
module SecEnv {
  import opened Wrappers
  import opened Bytes
  import opened Tlv
  import opened Apdu
  import opened Store
  import opened KeyD

  /** The operations a security environment can be set up for. */
  datatype Operation = Decipher | Sign | OtherOperation(code: int)

  /**
   * The parts of `sc_security_env` the driver reads: the operation, and the
   * key file reference when the "file reference present" flag is set.
   */
  datatype SecurityEnv = SecurityEnv(operation: Operation, fileRef: Option<seq<byte>>)

  /** The commands sent and how the exchange ended. */
  datatype Exchange = Exchange(outcome: Outcome, sent: seq<Command>)

  /** P2 of MSE SET: the confidentiality template (B8) for deciphering, the signature template (B6) for signing. */
  function MseP2(op: Operation): (p2: Option<byte>)
    ensures p2 == Some(0xB8) <==> op == Decipher
    ensures p2 == Some(0xB6) <==> op == Sign
    ensures p2.None? <==> op.OtherOperation?
  {
    match op
    case Decipher => Some(0xB8)
    case Sign => Some(0xB6)
    case OtherOperation(_) => None
  }

  /** A file reference the driver can use: present, and at least two bytes long. */
  predicate HasKeyFile(env: SecurityEnv) {
    env.fileRef.Some? && |env.fileRef.value| > 1
  }

  /** The key file: the last two bytes of the file reference, big-endian. */
  function KeyFile(ref: seq<byte>): (fid: u16)
    requires |ref| > 1
    ensures FidBytes(fid) == ref[|ref| - 2..]
  {
    SplitJoin(ref[|ref| - 2], ref[|ref| - 1]);
    Be16(ref[|ref| - 2], ref[|ref| - 1])
  }

  /**
   * The MSE data: `83 03 80`, then the key's two reference bytes when the
   * lookup found an SE number. Without one, only the three header bytes go.
   */
  function MseData(lookup: SeLookup): (data: seq<byte>)
    requires lookup.num != -1 ==> lookup.refData.Some?
    ensures |data| == if lookup.num == -1 then 3 else 5
    ensures data[..3] == [0x83, 0x03, 0x80]
  {
    if lookup.num == -1 then [0x83, 0x03, 0x80]
    else [0x83, 0x03, 0x80, lookup.refData.value.0, lookup.refData.value.1]
  }

  /** With an SE number, the MSE data is one control reference template `83` holding `80` and the reference. */
  lemma MseDataIsKeyReference(lookup: SeLookup)
    requires lookup.num != -1 && lookup.refData.Some?
    ensures ReadObject(MseData(lookup))
            == Some(Parsed(Obj(0x83, [0x80, lookup.refData.value.0, lookup.refData.value.1]), []))
  {
    var data := MseData(lookup);
    assert data[2..5] == [0x80, lookup.refData.value.0, lookup.refData.value.1];
    assert data[5..] == [];
  }

  /**
   * Without an SE number, the MSE data announces three value bytes and
   * holds one: it is not a complete data object.
   */
  lemma MseDataWithoutKeyIsTruncated(lookup: SeLookup)
    requires lookup.num == -1
    ensures ReadObject(MseData(lookup)).None?
  {
  }

  /** The SE number, when the lookup found one, is a valid P2 for RESTORE. */
  function RestoreCommands(lookup: SeLookup): (cmds: seq<Command>)
    requires -1 <= lookup.num < 0x100
    ensures cmds == [] <==> lookup.num == -1 || lookup.num == 0
    ensures cmds != [] ==> cmds == [RestoreSe(lookup.num as byte)]
  {
    if lookup.num == -1 || lookup.num == 0 then [] else [RestoreSe(lookup.num as byte)]
  }

  /** How a reply settles a command: a transport error, or the status word. */
  function StatusOf(reply: Reply): (r: Outcome)
    ensures reply.TransmitError? ==> r == Failure(TransmitFailed(reply.code))
    ensures reply.Reply? ==> r == CheckSw(reply.sw1, reply.sw2)
  {
    match reply
    case TransmitError(code) => Failure(TransmitFailed(code))
    case Reply(sw1, sw2, _) => CheckSw(sw1, sw2)
  }

  /**
   * `mcrd_set_security_env` for SE number `seNum`, with `keyd` the KeyD
   * records of the current DF: check the arguments, look up the key's SE,
   * restore that SE if it is not 0, then send MSE SET.
   */
  function SetEnvExchange(o: Oracle, log: seq<Command>, env: SecurityEnv, seNum: int, keyd: seq<Record>): (x: Exchange)
    ensures x.outcome != Failure(InvalidArguments) ==> seNum == 0 && MseP2(env.operation).Some? && HasKeyFile(env)
    ensures seNum != 0 || MseP2(env.operation).None? || !HasKeyFile(env) ==> x == Exchange(Failure(InvalidArguments), [])
    ensures x.outcome.Success? ==> |x.sent| > 0 && x.sent[|x.sent| - 1].SetSe?
  {
    if seNum != 0 then Exchange(Failure(InvalidArguments), [])
    else match MseP2(env.operation)
      case None => Exchange(Failure(InvalidArguments), [])
      case Some(p2) =>
        if !HasKeyFile(env) then Exchange(Failure(InvalidArguments), [])
        else KeyExchange(o, log, p2, SeNumFromRecords(keyd, KeyFile(env.fileRef.value), None))
  }

  /** Once the arguments pass: restore the key's SE if the lookup names one other than 0, then MSE SET. */
  function KeyExchange(o: Oracle, log: seq<Command>, p2: byte, lookup: SeLookup): (x: Exchange)
    requires -1 <= lookup.num < 0x100 && (lookup.num != -1 ==> lookup.refData.Some?)
    ensures x.outcome.Success? ==> |x.sent| > 0 && x.sent[|x.sent| - 1] == SetSe(p2, MseData(lookup))
  {
    var restore := RestoreCommands(lookup);
    var restored := if restore == [] then Success else StatusOf(o(log, restore[0]));
    if restored.Failure? then Exchange(restored, restore)
    else
      var cmd := SetSe(p2, MseData(lookup));
      Exchange(StatusOf(o(log + restore, cmd)), restore + [cmd])
  }

  /**
   * A KeyD record that names the key file and gives SE `se` makes the driver
   * restore SE `se` (unless it is 0) and then set the key's reference.
   */
  lemma SetEnvWithKeyRecord(o: Oracle, log: seq<Command>, op: Operation, ref: seq<byte>,
                            recno: nat, ref0: byte, ref1: byte, se: byte, rest: seq<Record>)
    requires !op.OtherOperation? && |ref| > 1
    requires se != 0 ==> StatusOf(o(log, RestoreSe(se))).Success?
    ensures var keyd := [Record(recno, KeyRecordData(ref0, ref1, KeyFile(ref), se))] + rest;
            var x := SetEnvExchange(o, log, SecurityEnv(op, Some(ref)), 0, keyd);
            x.sent == (if se == 0 then [] else [RestoreSe(se)]) + [SetSe(MseP2(op).value, [0x83, 0x03, 0x80, ref0, ref1])]
  {
    LookupWellFormedRecord(recno, ref0, ref1, KeyFile(ref), se, rest, None);
  }

  /** When the card refuses to restore the SE, MSE SET is not sent. */
  lemma RestoreFailureStops(o: Oracle, log: seq<Command>, env: SecurityEnv, keyd: seq<Record>)
    requires MseP2(env.operation).Some? && HasKeyFile(env)
    requires var lookup := SeNumFromRecords(keyd, KeyFile(env.fileRef.value), None);
             lookup.num > 0 && StatusOf(o(log, RestoreSe(lookup.num as byte))).Failure?
    ensures var x := SetEnvExchange(o, log, env, 0, keyd);
            x.outcome.Failure? && |x.sent| == 1 && x.sent[0].RestoreSe?
  {
  }

  // ---------------------------------------------------------------- compute signature

  /** The signature, or the error, and the commands sent. */
  datatype Signing = Signing(result: Result<seq<byte>>, sent: seq<Command>)

  /** The response bytes that fit in the caller's buffer of `outlen` bytes. */
  function Clamp(data: seq<byte>, outlen: nat): (out: seq<byte>)
    ensures |out| == if |data| < outlen then |data| else outlen
    ensures out == data[..|out|]
  {
    if |data| > outlen then data[..outlen] else data
  }

  /**
   * `mcrd_compute_signature`: PERFORM SECURITY OPERATION with the input;
   * on `90 00` the response is the signature; on `60 61` a GET RESPONSE
   * fetches it, whatever its status word; any other status is an error.
   */
  function SignExchange(o: Oracle, log: seq<Command>, data: seq<byte>, outlen: nat): (s: Signing)
    ensures |data| > 255 ==> s == Signing(Err(InvalidArguments), [])
    ensures |data| <= 255 ==> 1 <= |s.sent| <= 2 && s.sent[0] == PerformSignature(data)
    ensures s.result.Ok? ==> |s.result.value| <= outlen
  {
    if |data| > 255 then Signing(Err(InvalidArguments), [])
    else
      var cmd := PerformSignature(data);
      match o(log, cmd)
      case TransmitError(code) => Signing(Err(TransmitFailed(code)), [cmd])
      case Reply(sw1, sw2, resp) =>
        if sw1 == 0x90 && sw2 == 0x00 then Signing(Ok(Clamp(resp, outlen)), [cmd])
        else if sw1 == 0x60 && sw2 == 0x61 then
          match o(log + [cmd], GetResponse)
          case TransmitError(code) => Signing(Err(TransmitFailed(code)), [cmd, GetResponse])
          case Reply(_, _, resp') => Signing(Ok(Clamp(resp', outlen)), [cmd, GetResponse])
        else Signing(Err(CheckSw(sw1, sw2).error), [cmd])
  }

  /** A signature the card returns at once, and that fits, is handed back whole. */
  lemma SignatureReturned(o: Oracle, log: seq<Command>, data: seq<byte>, outlen: nat, sig: seq<byte>)
    requires |data| <= 255 && |sig| <= outlen
    requires o(log, PerformSignature(data)) == Reply(0x90, 0x00, sig)
    ensures SignExchange(o, log, data, outlen) == Signing(Ok(sig), [PerformSignature(data)])
  {
  }

  /** On `90 00` the signature is the first `min(len, outlen)` response bytes, after one command. */
  lemma SignatureClamped(o: Oracle, log: seq<Command>, data: seq<byte>, outlen: nat, sig: seq<byte>)
    requires |data| <= 255
    requires o(log, PerformSignature(data)) == Reply(0x90, 0x00, sig)
    ensures SignExchange(o, log, data, outlen) == Signing(Ok(Clamp(sig, outlen)), [PerformSignature(data)])
  {
  }

  /** After `60 61`, exactly one GET RESPONSE follows the PERFORM SECURITY OPERATION. */
  lemma GetResponseFollows(o: Oracle, log: seq<Command>, data: seq<byte>, outlen: nat)
    requires |data| <= 255
    requires o(log, PerformSignature(data)).Reply? && o(log, PerformSignature(data)).sw1 == 0x60
             && o(log, PerformSignature(data)).sw2 == 0x61
    ensures SignExchange(o, log, data, outlen).sent == [PerformSignature(data), GetResponse]
  {
  }

  /** After `60 61`, the GET RESPONSE data is taken as the signature even if its status word is an error. */
  lemma GetResponseStatusIgnored(o: Oracle, log: seq<Command>, data: seq<byte>, outlen: nat, sw1: byte, sw2: byte, resp: seq<byte>)
    requires |data| <= 255
    requires o(log, PerformSignature(data)).Reply? && o(log, PerformSignature(data)).sw1 == 0x60
             && o(log, PerformSignature(data)).sw2 == 0x61
    requires o(log + [PerformSignature(data)], GetResponse) == Reply(sw1, sw2, resp)
    ensures SignExchange(o, log, data, outlen).result == Ok(Clamp(resp, outlen))
  {
  }

  /** Any status other than `90 00` and `60 61` fails with the error that status word stands for. */
  lemma SignatureRefused(o: Oracle, log: seq<Command>, data: seq<byte>, outlen: nat)
    requires |data| <= 255
    requires var r := o(log, PerformSignature(data));
             r.Reply? && !(r.sw1 == 0x90 && r.sw2 == 0x00) && !(r.sw1 == 0x60 && r.sw2 == 0x61)
    ensures var r := o(log, PerformSignature(data));
            SignExchange(o, log, data, outlen) == Signing(Err(CheckSw(r.sw1, r.sw2).error), [PerformSignature(data)])
  {
  }
}
