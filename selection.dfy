/**
 * Single-level selection and the descent of `select_down`, as functions of the
 * card oracle: which SELECT commands are sent, which of them the card accepts,
 * and how far down the requested path the driver gets.
 */
module Selection {
  import opened Wrappers
  import opened Bytes
  import opened Apdu

  /** Depth of the path cache (MAX_CURPATH). */
  const MaxCurPath: nat := 10
  /** The master file (MF), the root of the card's file tree. */
  const Mfid: u16 := 0x3F00
  /** The identifier a path may start with to say "the current DF". */
  const CurrentDf: u16 := 0x3FFF
  /** Longest path value an `sc_path` holds (SC_MAX_PATH_SIZE of opensc.h, which is not part of this model). */
  const MaxPathBytes: nat := 16

  // ---------------------------------------------------------------- path bytes

  /** The path bytes of a request, read as big-endian 16-bit file identifiers. */
  function DecodePath(value: seq<byte>): (fids: seq<u16>)
    requires |value| % 2 == 0
    ensures |fids| == |value| / 2
    decreases |value|
  {
    if value == [] then [] else [Be16(value[0], value[1])] + DecodePath(value[2..])
  }

  function EncodePath(fids: seq<u16>): (value: seq<byte>)
    ensures |value| == 2 * |fids|
  {
    if fids == [] then [] else FidBytes(fids[0]) + EncodePath(fids[1..])
  }

  /** File identifier k of a decoded path is `value[2k] << 8 | value[2k+1]`. */
  lemma {:induction false} DecodePathAt(value: seq<byte>, k: nat)
    requires |value| % 2 == 0 && k < |value| / 2
    ensures DecodePath(value)[k] == Be16(value[2 * k], value[2 * k + 1])
    decreases k
  {
    if k > 0 {
      DecodePathAt(value[2..], k - 1);
    }
  }

  /** Decoding undoes encoding. */
  lemma {:induction false} DecodeEncodePath(fids: seq<u16>)
    ensures DecodePath(EncodePath(fids)) == fids
  {
    if fids != [] {
      var v := EncodePath(fids);
      assert v[2..] == EncodePath(fids[1..]);
      DecodeEncodePath(fids[1..]);
    }
  }

  /** Encoding undoes decoding: no two byte strings decode to the same path. */
  lemma {:induction false} EncodeDecodePath(value: seq<byte>)
    requires |value| % 2 == 0
    ensures EncodePath(DecodePath(value)) == value
    decreases |value|
  {
    if value != [] {
      EncodeDecodePath(value[2..]);
      assert value == value[..2] + value[2..];
    }
  }

  /** The argument check on path bytes, then the decoding (mcrd_select_file). */
  function PathOfBytes(value: seq<byte>): (r: Result<seq<u16>>)
    ensures r.Err? <==> |value| % 2 == 1 || |value| > MaxPathBytes
    ensures r.Err? ==> r.error == InvalidArguments
    ensures r.Ok? ==> |r.value| == |value| / 2 && |r.value| <= MaxPathBytes / 2
    ensures r.Ok? ==> EncodePath(r.value) == value
  {
    if |value| % 2 == 1 || |value| > MaxPathBytes then Err(InvalidArguments)
    else
      EncodeDecodePath(value);
      Ok(DecodePath(value))
  }

  /** Drops one leading 3FFF ("current DF") from a path. */
  function StripCurrentDf(path: seq<u16>): (p: seq<u16>)
    ensures path != [] && path[0] == CurrentDf ==> [CurrentDf] + p == path
    ensures !(path != [] && path[0] == CurrentDf) ==> p == path
  {
    if path != [] && path[0] == CurrentDf then path[1..] else path
  }

  /** Length of the longest common prefix of two paths. */
  function CommonPrefix(a: seq<u16>, b: seq<u16>): (n: nat)
    ensures n <= |a| && n <= |b| && a[..n] == b[..n]
    ensures n < |a| && n < |b| ==> a[n] != b[n]
  {
    if a == [] || b == [] || a[0] != b[0] then 0
    else
      var n := 1 + CommonPrefix(a[1..], b[1..]);
      assert a[..n] == [a[0]] + a[1..][..n - 1];
      assert b[..n] == [b[0]] + b[1..][..n - 1];
      n
  }

  /** The common prefix is the one place where two paths part: any `n` with that property is it. */
  lemma {:induction false} CommonPrefixUnique(a: seq<u16>, b: seq<u16>, n: nat)
    requires n <= |a| && n <= |b| && a[..n] == b[..n]
    requires n < |a| && n < |b| ==> a[n] != b[n]
    ensures CommonPrefix(a, b) == n
  {
    if n > 0 {
      assert a[0] == a[..n][0] && b[0] == b[..n][0];
      assert a[1..][..n - 1] == a[..n][1..] && b[1..][..n - 1] == b[..n][1..];
      CommonPrefixUnique(a[1..], b[1..], n - 1);
    }
  }

  // ---------------------------------------------------------------- one SELECT

  /** The MF is always selected with P1 = MF, whatever kind the caller asked for (select_part). */
  function PartKind(kind: byte, fid: u16): byte {
    if fid == Mfid then SelMf else kind
  }

  /** The SELECT sent by `select_part` for one file identifier. */
  function PartCommand(kind: byte, fid: u16, wantFci: bool): Command {
    Select(PartKind(kind, fid), FidBytes(fid), wantFci)
  }

  /** What a select response says about the file control information. */
  datatype FciBody =
    | NoFci                      // the caller did not ask for it
    | FcpBytes(fcp: seq<byte>)   // a 6F template whose FCP bytes lie within the response
    | FcpOutOfRange              // a 6F template whose announced length does not fit: no field is decoded

  datatype Answer = Accepted(fci: FciBody) | Rejected(error: Error)

  /**
   * The length check on the FCI as written: the announced FCP length is
   * compared with the whole response, whose first two bytes are the 6F
   * header, so a body running one or two bytes past the response is accepted.
   */
  predicate FciLengthAsWritten(resp: seq<byte>)
    requires |resp| >= 2
  {
    resp[1] <= |resp|
  }

  /** The corrected check: the FCP bytes `resp[2 .. 2 + resp[1]]` are taken only when they are all there. */
  function FcpBody(resp: seq<byte>): (r: Option<seq<byte>>)
    ensures r.Some? ==> |resp| >= 2 && |r.value| == resp[1] && 2 + resp[1] <= |resp| && resp[..2 + resp[1]] == resp[..2] + r.value
  {
    if |resp| >= 2 && 2 + resp[1] <= |resp| then
      assert resp[..2 + resp[1]] == resp[..2] + resp[2..2 + resp[1]];
      Some(resp[2..2 + resp[1]])
    else None
  }

  /** A response `6F 02 83`: the check as written lets it through, though only one FCP byte was received. */
  lemma FciLengthAsWrittenOverruns()
    ensures var resp: seq<byte> := [0x6F, 0x02, 0x83];
            FciLengthAsWritten(resp) && 2 + resp[1] > |resp| && FcpBody(resp).None?
  {
  }

  /** The check as written accepts exactly the well-formed responses plus those overrunning by one or two bytes. */
  lemma FciLengthAsWrittenAdmits(resp: seq<byte>)
    requires |resp| >= 2
    ensures FciLengthAsWritten(resp) <==> FcpBody(resp).Some? || resp[1] == |resp| - 1 || resp[1] == |resp|
  {
  }

  /** The corrected check gives back the body of a well-formed FCI, whatever follows it. */
  lemma FcpBodyRoundTrip(body: seq<byte>, trailer: seq<byte>)
    requires |body| < 0x100
    ensures FcpBody([0x6F, |body|] + body + trailer) == Some(body)
  {
    var resp := [0x6F, |body|] + body + trailer;
    assert resp[2..2 + |body|] == body;
  }

  /** How `do_select` judges the reply to a SELECT. */
  function SelectAnswer(reply: Reply, wantFci: bool): (a: Answer)
    ensures reply.TransmitError? ==> a == Rejected(TransmitFailed(reply.code))
    ensures a.Accepted? ==> reply.Reply? && (a.fci.NoFci? <==> !wantFci)
    ensures a.Accepted? && !wantFci ==> reply.sw1 == 0x61 || CheckSw(reply.sw1, reply.sw2).Success?
    ensures a.Accepted? && wantFci ==>
              CheckSw(reply.sw1, reply.sw2).Success? && |reply.data| > 0 && reply.data[0] == 0x6F
    ensures reply.Reply? && CheckSw(reply.sw1, reply.sw2).Failure? && (wantFci || reply.sw1 != 0x61) ==>
              a == Rejected(CheckSw(reply.sw1, reply.sw2).error)
  {
    match reply
    case TransmitError(code) => Rejected(TransmitFailed(code))
    case Reply(sw1, sw2, data) =>
      if !wantFci then
        if sw1 == 0x61 then Accepted(NoFci)
        else if CheckSw(sw1, sw2).Success? then Accepted(NoFci)
        else Rejected(CheckSw(sw1, sw2).error)
      else if CheckSw(sw1, sw2).Failure? then Rejected(CheckSw(sw1, sw2).error)
      // An empty response is treated as not starting with 6F.
      else if |data| == 0 || data[0] != 0x6F then Rejected(UnknownDataReceived)
      else match FcpBody(data)
        case Some(fcp) => Accepted(FcpBytes(fcp))
        case None => Accepted(FcpOutOfRange)
  }

  /** An accepted SELECT as a predicate on the history it was sent after. */
  predicate Accepts(o: Oracle, log: seq<Command>, cmd: Command) {
    cmd.Select? && SelectAnswer(o(log, cmd), cmd.wantsFci).Accepted?
  }

  // ---------------------------------------------------------------- the descent

  /**
   * How `select_down`'s loop ended, the commands it sent, in order, and the
   * FCI of the last-component SELECT the card accepted (the file handed back).
   */
  datatype Descent = Descent(outcome: Outcome, selected: nat, foundEf: bool, sent: seq<Command>, fci: FciBody)

  /**
   * The last component when files are wanted: tried as an EF first, and
   * selected as a DF when the card refuses the EF select.
   */
  function Leaf(o: Oracle, log: seq<Command>, fid: u16, wantFci: bool): (d: Descent)
    ensures d.outcome.Success? <==> d.selected == 1
    ensures d.selected <= 1
    ensures d.foundEf ==> d.sent == [PartCommand(SelEf, fid, wantFci)] && Accepts(o, log, d.sent[0])
    ensures !d.foundEf ==> d.sent == [PartCommand(SelEf, fid, wantFci), PartCommand(SelDf, fid, wantFci)]
                           && !Accepts(o, log, d.sent[0])
  {
    var ef := PartCommand(SelEf, fid, wantFci);
    if Accepts(o, log, ef) then
      Descent(Success, 1, true, [ef], SelectAnswer(o(log, ef), wantFci).fci)
    else
      var df := PartCommand(SelDf, fid, wantFci);
      var a := SelectAnswer(o(log + [ef], df), wantFci);
      if a.Accepted? then Descent(Success, 1, false, [ef, df], a.fci)
      else Descent(Failure(a.error), 0, false, [ef, df], NoFci)
  }

  /**
   * The loop of `select_down`, from a cache `depth` entries deep, after the
   * commands in `log`: every component but the last is selected as a DF; the
   * last one is tried as an EF first (unless `dfOnly`) and as a DF after
   * that. `selected` counts the components the card accepted (each is
   * appended to the cache), and the loop stops at the first rejection or when
   * the cache is full.
   */
  function Descend(o: Oracle, log: seq<Command>, path: seq<u16>, dfOnly: bool, wantFci: bool, depth: nat): (d: Descent)
    ensures d.selected <= |path|
    ensures d.outcome.Success? <==> d.selected == |path|
    ensures d.outcome.Success? && path != [] ==> depth + |path| <= MaxCurPath
    ensures d.foundEf ==> d.outcome.Success? && !dfOnly && path != []
    ensures |d.sent| <= |path| + 1
    ensures d.sent == [] ==> path == [] || (depth >= MaxCurPath && d.outcome == Failure(Internal))
    decreases |path|
  {
    if path == [] then Descent(Success, 0, false, [], NoFci)
    else if depth >= MaxCurPath then Descent(Failure(Internal), 0, false, [], NoFci)
    else if |path| == 1 && !dfOnly then Leaf(o, log, path[0], wantFci)
    else
      var df := PartCommand(SelDf, path[0], |path| == 1 && wantFci);
      var a := SelectAnswer(o(log, df), |path| == 1 && wantFci);
      if a.Rejected? then Descent(Failure(a.error), 0, false, [df], NoFci)
      else
        var d := Descend(o, log + [df], path[1..], dfOnly, wantFci, depth + 1);
        Descent(d.outcome, d.selected + 1, d.foundEf, [df] + d.sent, if |path| == 1 then a.fci else d.fci)
  }

  /** The DF select the descent sends for the first component of `path` when that is not tried as an EF. */
  function DfStep(path: seq<u16>, wantFci: bool): Command
    requires path != []
  {
    PartCommand(SelDf, path[0], |path| == 1 && wantFci)
  }

  /** The last component: tried as an EF then a DF, or (with `dfOnly`) selected as a DF, with the FCI wanted. */
  function LastStep(o: Oracle, log: seq<Command>, fid: u16, dfOnly: bool, wantFci: bool): Descent {
    if !dfOnly then Leaf(o, log, fid, wantFci)
    else
      var df := PartCommand(SelDf, fid, wantFci);
      var a := SelectAnswer(o(log, df), wantFci);
      if a.Rejected? then Descent(Failure(a.error), 0, false, [df], NoFci)
      else Descent(Success, 1, false, [df], a.fci)
  }

  /** Below a cache that is not full, the descent of a one-component path is that component's step. */
  lemma DescendLast(o: Oracle, log: seq<Command>, fid: u16, dfOnly: bool, wantFci: bool, depth: nat)
    requires depth < MaxCurPath
    ensures Descend(o, log, [fid], dfOnly, wantFci, depth) == LastStep(o, log, fid, dfOnly, wantFci)
  {
    assert [fid][1..] == [];
  }

  /** A component before the last, refused as a DF: the descent stops there. */
  lemma DescendRejected(o: Oracle, log: seq<Command>, path: seq<u16>, dfOnly: bool, wantFci: bool, depth: nat)
    requires |path| > 1 && depth < MaxCurPath
    requires SelectAnswer(o(log, PartCommand(SelDf, path[0], false)), false).Rejected?
    ensures Descend(o, log, path, dfOnly, wantFci, depth)
            == Descent(Failure(SelectAnswer(o(log, PartCommand(SelDf, path[0], false)), false).error), 0, false,
                       [PartCommand(SelDf, path[0], false)], NoFci)
  {
  }

  /** One step of the descent through a component the card accepts as a DF. */
  lemma DescendStep(o: Oracle, log: seq<Command>, path: seq<u16>, dfOnly: bool, wantFci: bool, depth: nat)
    requires path != [] && depth < MaxCurPath && !(|path| == 1 && !dfOnly)
    requires Accepts(o, log, DfStep(path, wantFci))
    ensures var d := Descend(o, log + [DfStep(path, wantFci)], path[1..], dfOnly, wantFci, depth + 1);
            Descend(o, log, path, dfOnly, wantFci, depth)
            == Descent(d.outcome, d.selected + 1, d.foundEf, [DfStep(path, wantFci)] + d.sent,
                       if |path| == 1 then SelectAnswer(o(log, DfStep(path, wantFci)), |path| == 1 && wantFci).fci else d.fci)
  {
  }

  /**
   * From a cache that is not overfull, the descent never fills it beyond
   * its depth, and it hands back an FCI only when it succeeds.
   */
  lemma {:induction false} DescendBounds(o: Oracle, log: seq<Command>, path: seq<u16>, dfOnly: bool, wantFci: bool, depth: nat)
    requires depth <= MaxCurPath
    ensures var d := Descend(o, log, path, dfOnly, wantFci, depth);
            depth + d.selected <= MaxCurPath && (!d.fci.NoFci? ==> d.outcome.Success?)
    decreases |path|
  {
    if path != [] && depth < MaxCurPath && !(|path| == 1 && !dfOnly) {
      var df := DfStep(path, wantFci);
      if Accepts(o, log, df) {
        DescendStep(o, log, path, dfOnly, wantFci, depth);
        DescendBounds(o, log + [df], path[1..], dfOnly, wantFci, depth + 1);
      }
    }
  }

  /** Every command is a DF (or MF) select. */
  predicate OnlyDfSelects(cmds: seq<Command>) {
    forall i :: 0 <= i < |cmds| ==> cmds[i].Select? && cmds[i].p1 in {SelDf, SelMf}
  }

  /** With `dfOnly`, the descent sends only DF selects (MF for 3F00), never an EF select. */
  lemma {:induction false} DescendDfOnly(o: Oracle, log: seq<Command>, path: seq<u16>, wantFci: bool, depth: nat)
    ensures OnlyDfSelects(Descend(o, log, path, true, wantFci, depth).sent)
    decreases |path|
  {
    if path != [] && depth < MaxCurPath {
      var df := DfStep(path, wantFci);
      if Accepts(o, log, df) {
        DescendStep(o, log, path, true, wantFci, depth);
        DescendDfOnly(o, log + [df], path[1..], wantFci, depth + 1);
      }
    }
  }

  /** The last command in `sent`, issued after `log`, is an EF select of the last component that the card accepted. */
  predicate EndsOnEf(o: Oracle, log: seq<Command>, path: seq<u16>, wantFci: bool, d: Descent) {
    d.foundEf ==> path != [] && |d.sent| > 0
                  && d.sent[|d.sent| - 1] == PartCommand(SelEf, path[|path| - 1], wantFci)
                  && Accepts(o, log + d.sent[..|d.sent| - 1], d.sent[|d.sent| - 1])
  }

  /**
   * `is_ef` is set only when the last thing the descent did was an EF select
   * of the last component that the card accepted.
   */
  lemma {:induction false} DescendFoundEf(o: Oracle, log: seq<Command>, path: seq<u16>, dfOnly: bool, wantFci: bool, depth: nat)
    ensures EndsOnEf(o, log, path, wantFci, Descend(o, log, path, dfOnly, wantFci, depth))
    decreases |path|
  {
    if path != [] && depth < MaxCurPath {
      if |path| == 1 && !dfOnly {
        assert path == [path[0]];
        DescendLast(o, log, path[0], dfOnly, wantFci, depth);
        assert log + [] == log;
      } else {
        var df := DfStep(path, wantFci);
        if Accepts(o, log, df) {
          var d' := Descend(o, log + [df], path[1..], dfOnly, wantFci, depth + 1);
          DescendStep(o, log, path, dfOnly, wantFci, depth);
          DescendFoundEf(o, log + [df], path[1..], dfOnly, wantFci, depth + 1);
          var whole := Descend(o, log, path, dfOnly, wantFci, depth);
          EndsOnEfThrough(o, log, df, path, wantFci, d', whole.fci);
          assert whole == Descent(d'.outcome, d'.selected + 1, d'.foundEf, [df] + d'.sent, whole.fci);
        }
      }
    }
  }

  /** Ending on an accepted EF select carries over from the rest of the path to the whole path. */
  lemma EndsOnEfThrough(o: Oracle, log: seq<Command>, df: Command, path: seq<u16>, wantFci: bool, d': Descent, fci: FciBody)
    requires path != []
    requires EndsOnEf(o, log + [df], path[1..], wantFci, d')
    ensures EndsOnEf(o, log, path, wantFci, Descent(d'.outcome, d'.selected + 1, d'.foundEf, [df] + d'.sent, fci))
  {
    if d'.foundEf {
      assert path[1..][|path[1..]| - 1] == path[|path| - 1];
      var s := [df] + d'.sent;
      assert s[..|s| - 1] == [df] + d'.sent[..|d'.sent| - 1];
      assert log + s[..|s| - 1] == log + [df] + d'.sent[..|d'.sent| - 1];
    }
  }

  /** The last command in `sent`, issued after `log`, is a SELECT of `fid` the card rejected with `e`. */
  predicate RejectedLast(o: Oracle, log: seq<Command>, sent: seq<Command>, fid: u16, e: Error) {
    |sent| > 0 && sent[|sent| - 1].Select? && sent[|sent| - 1].data == FidBytes(fid)
    && SelectAnswer(o(log + sent[..|sent| - 1], sent[|sent| - 1]), sent[|sent| - 1].wantsFci) == Rejected(e)
  }

  /** How a failed descent ended: the full cache, or a rejected SELECT of the component it stopped at. */
  predicate FailedProperly(o: Oracle, log: seq<Command>, path: seq<u16>, depth: nat, d: Descent) {
    d.outcome.Failure? ==>
      (d.outcome.error == Internal && depth + d.selected >= MaxCurPath && |d.sent| == d.selected)
      || (d.selected < |path| && RejectedLast(o, log, d.sent, path[d.selected], d.outcome.error))
  }

  /**
   * A descent that fails either ran into the full cache, or stopped at a
   * component the card rejected: the last command sent selects that component,
   * and the card's answer to it is the error returned.
   */
  lemma {:induction false} DescendFailure(o: Oracle, log: seq<Command>, path: seq<u16>, dfOnly: bool, wantFci: bool, depth: nat)
    ensures FailedProperly(o, log, path, depth, Descend(o, log, path, dfOnly, wantFci, depth))
    decreases |path|
  {
    if path != [] && depth < MaxCurPath {
      if |path| == 1 && !dfOnly {
        assert path == [path[0]];
        DescendLast(o, log, path[0], dfOnly, wantFci, depth);
        LeafFailure(o, log, path[0], wantFci, depth);
      } else {
        var df := DfStep(path, wantFci);
        if Accepts(o, log, df) {
          var d' := Descend(o, log + [df], path[1..], dfOnly, wantFci, depth + 1);
          DescendStep(o, log, path, dfOnly, wantFci, depth);
          DescendFailure(o, log + [df], path[1..], dfOnly, wantFci, depth + 1);
          var whole := Descend(o, log, path, dfOnly, wantFci, depth);
          FailureThrough(o, log, df, path, depth, d', whole.fci);
          assert whole == Descent(d'.outcome, d'.selected + 1, d'.foundEf, [df] + d'.sent, whole.fci);
        } else {
          DfRejectedFailure(o, log, path, dfOnly, wantFci, depth);
        }
      }
    }
  }

  lemma LeafFailure(o: Oracle, log: seq<Command>, fid: u16, wantFci: bool, depth: nat)
    ensures FailedProperly(o, log, [fid], depth, Leaf(o, log, fid, wantFci))
  {
    var ef := PartCommand(SelEf, fid, wantFci);
    assert [ef, PartCommand(SelDf, fid, wantFci)][..1] == [ef];
  }

  lemma DfRejectedFailure(o: Oracle, log: seq<Command>, path: seq<u16>, dfOnly: bool, wantFci: bool, depth: nat)
    requires path != [] && depth < MaxCurPath && !(|path| == 1 && !dfOnly)
    requires !Accepts(o, log, DfStep(path, wantFci))
    ensures FailedProperly(o, log, path, depth, Descend(o, log, path, dfOnly, wantFci, depth))
  {
    assert log + [DfStep(path, wantFci)][..0] == log;
  }

  /** The failure shape of the rest of the path carries over to the whole path, one component longer. */
  lemma FailureThrough(o: Oracle, log: seq<Command>, df: Command, path: seq<u16>, depth: nat, d': Descent, fci: FciBody)
    requires path != []
    requires FailedProperly(o, log + [df], path[1..], depth + 1, d')
    ensures FailedProperly(o, log, path, depth, Descent(d'.outcome, d'.selected + 1, d'.foundEf, [df] + d'.sent, fci))
  {
    if d'.outcome.Failure? && d'.selected < |path[1..]| && RejectedLast(o, log + [df], d'.sent, path[1..][d'.selected], d'.outcome.error) {
      assert path[1..][d'.selected] == path[d'.selected + 1];
      var s := [df] + d'.sent;
      assert s[..|s| - 1] == [df] + d'.sent[..|d'.sent| - 1];
      assert log + s[..|s| - 1] == log + [df] + d'.sent[..|d'.sent| - 1];
    }
  }

  /** The SELECTs of a descent that reaches an EF: DF selects down the path, then an EF select of the last component. */
  function DescentToEf(path: seq<u16>, wantFci: bool): (cmds: seq<Command>)
    requires path != []
    ensures |cmds| == |path|
  {
    if |path| == 1 then [PartCommand(SelEf, path[0], wantFci)]
    else [PartCommand(SelDf, path[0], false)] + DescentToEf(path[1..], wantFci)
  }

  /** The card accepts each command after the ones before it. */
  predicate AllAccepted(o: Oracle, log: seq<Command>, cmds: seq<Command>) {
    forall i :: 0 <= i < |cmds| ==> Accepts(o, log + cmds[..i], cmds[i])
  }

  /** Acceptance of a command list passes to its tail, after its head. */
  lemma AllAcceptedTail(o: Oracle, log: seq<Command>, c: Command, rest: seq<Command>)
    requires AllAccepted(o, log, [c] + rest)
    ensures Accepts(o, log, c) && AllAccepted(o, log + [c], rest)
  {
    var cmds := [c] + rest;
    assert log + cmds[..0] == log;
    assert Accepts(o, log + cmds[..0], cmds[0]);
    forall i | 0 <= i < |rest|
      ensures Accepts(o, log + [c] + rest[..i], rest[i])
    {
      assert cmds[..i + 1] == [c] + rest[..i];
      assert log + [c] + rest[..i] == log + cmds[..i + 1];
      assert rest[i] == cmds[i + 1];
    }
  }

  /**
   * When the card accepts every DF on the way and the last component as an
   * EF, the descent sends exactly one SELECT per component, selects all of
   * them and ends positioned on an EF (for 3F00/4100/4101: 3F00 as MF, 4100
   * as a DF, 4101 as an EF).
   */
  lemma {:induction false} DescendReachesEf(o: Oracle, log: seq<Command>, path: seq<u16>, wantFci: bool, depth: nat)
    requires path != [] && depth + |path| <= MaxCurPath
    requires AllAccepted(o, log, DescentToEf(path, wantFci))
    ensures var d := Descend(o, log, path, false, wantFci, depth);
            d.outcome == Success && d.selected == |path| && d.foundEf && d.sent == DescentToEf(path, wantFci)
    decreases |path|
  {
    if |path| == 1 {
      AllAcceptedTail(o, log, PartCommand(SelEf, path[0], wantFci), []);
    } else {
      var c := PartCommand(SelDf, path[0], false);
      AllAcceptedTail(o, log, c, DescentToEf(path[1..], wantFci));
      DescendReachesEf(o, log + [c], path[1..], wantFci, depth + 1);
      DescendStep(o, log, path, false, wantFci, depth);
    }
  }

  // ---------------------------------------------------------------- the descent, one component at a time

  /**
   * Names the rest of a descent. It holds of every descent; a proof mentions
   * it to use `DescentSoFar`, which keeps the solver from unfolding the rest
   * of the descent wherever the loop invariant is in scope.
   */
  predicate Rest(d: Descent) { true }

  /**
   * The loop invariant of `select_down`: `k` components are selected, `sent`
   * holds their DF selects, and the whole descent is those followed by the
   * descent of `path[k..]` after `log`.
   */
  ghost predicate DescentSoFar(o: Oracle, whole: Descent, log: seq<Command>, path: seq<u16>, k: nat,
                               sent: seq<Command>, dfOnly: bool, wantFci: bool, depth: nat)
    requires k <= |path|
  {
    forall d {:trigger Rest(d)} :: d == Descend(o, log, path[k..], dfOnly, wantFci, depth) ==>
      whole == Descent(d.outcome, d.selected + k, d.foundEf, sent + d.sent, d.fci)
  }

  lemma DescentSoFarStart(o: Oracle, log: seq<Command>, path: seq<u16>, dfOnly: bool, wantFci: bool, depth: nat)
    ensures DescentSoFar(o, Descend(o, log, path, dfOnly, wantFci, depth), log, path, 0, [], dfOnly, wantFci, depth)
  {
    var d := Descend(o, log, path, dfOnly, wantFci, depth);
    assert path[0..] == path && [] + d.sent == d.sent;
  }

  /** A component before the last accepted as a DF: one more selected, its select sent. */
  lemma DescentSoFarStep(o: Oracle, whole: Descent, log: seq<Command>, path: seq<u16>, k: nat,
                         sent: seq<Command>, dfOnly: bool, wantFci: bool, depth: nat)
    requires k < |path| - 1 && depth < MaxCurPath
    requires Accepts(o, log, PartCommand(SelDf, path[k], false))
    requires DescentSoFar(o, whole, log, path, k, sent, dfOnly, wantFci, depth)
    ensures DescentSoFar(o, whole, log + [PartCommand(SelDf, path[k], false)], path, k + 1,
                         sent + [PartCommand(SelDf, path[k], false)], dfOnly, wantFci, depth + 1)
  {
    var df := PartCommand(SelDf, path[k], false);
    DescendStep(o, log, path[k..], dfOnly, wantFci, depth);
    assert path[k..][1..] == path[k + 1..];
    assert Rest(Descend(o, log, path[k..], dfOnly, wantFci, depth));
    var d' := Descend(o, log + [df], path[k + 1..], dfOnly, wantFci, depth + 1);
    assert sent + ([df] + d'.sent) == sent + [df] + d'.sent;
  }

  /** A component before the last refused: the descent ends with that select. */
  lemma DescentSoFarRejected(o: Oracle, whole: Descent, log: seq<Command>, path: seq<u16>, k: nat,
                             sent: seq<Command>, dfOnly: bool, wantFci: bool, depth: nat)
    requires k < |path| - 1 && depth < MaxCurPath
    requires SelectAnswer(o(log, PartCommand(SelDf, path[k], false)), false).Rejected?
    requires DescentSoFar(o, whole, log, path, k, sent, dfOnly, wantFci, depth)
    ensures whole == Descent(Failure(SelectAnswer(o(log, PartCommand(SelDf, path[k], false)), false).error), k, false,
                             sent + [PartCommand(SelDf, path[k], false)], NoFci)
  {
    DescendRejected(o, log, path[k..], dfOnly, wantFci, depth);
    assert Rest(Descend(o, log, path[k..], dfOnly, wantFci, depth));
  }

  /** A full cache ends the descent before the next select. */
  lemma DescentSoFarFull(o: Oracle, whole: Descent, log: seq<Command>, path: seq<u16>, k: nat,
                         sent: seq<Command>, dfOnly: bool, wantFci: bool, depth: nat)
    requires k < |path| && depth >= MaxCurPath
    requires DescentSoFar(o, whole, log, path, k, sent, dfOnly, wantFci, depth)
    ensures whole == Descent(Failure(Internal), k, false, sent, NoFci)
  {
    assert Rest(Descend(o, log, path[k..], dfOnly, wantFci, depth));
    assert sent + [] == sent;
  }

  /** At the last component, what is left is the descent of that one component. */
  lemma DescentSoFarLast(o: Oracle, whole: Descent, log: seq<Command>, path: seq<u16>, k: nat,
                         sent: seq<Command>, dfOnly: bool, wantFci: bool, depth: nat)
    requires k == |path| - 1
    requires DescentSoFar(o, whole, log, path, k, sent, dfOnly, wantFci, depth)
    requires depth < MaxCurPath
    ensures var d := LastStep(o, log, path[k], dfOnly, wantFci);
            whole == Descent(d.outcome, d.selected + k, d.foundEf, sent + d.sent, d.fci)
  {
    assert path[k..] == [path[k]];
    DescendLast(o, log, path[k], dfOnly, wantFci, depth);
    assert Rest(Descend(o, log, path[k..], dfOnly, wantFci, depth));
  }
}
