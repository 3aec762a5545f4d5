/**
 * The per-directory metadata the driver caches: for each DF path it has seen,
 * the records of that DF's EF_Rule (default access rules) and EF_KeyD (extra
 * key information), as read with READ RECORD.
 */
module Store {
  import opened Wrappers
  import opened Bytes
  import opened Apdu
  import opened Selection

  /** EF_KeyD, the file with extra key information. */
  const EfKeyD: u16 := 0x0013
  /** EF_Rule, the default access rule file. */
  const EfRule: u16 := 0x0030
  /** The highest record number READ RECORD addresses (record numbers run 1..254 in ISO/IEC 7816-4). */
  const MaxRecno: nat := 254

  /** One record as read from the card. */
  datatype Record = Record(recno: nat, data: seq<byte>)

  /** The cached files of one DF, keyed by its full path. Record lists are newest first. */
  datatype DfInfo = DfInfo(path: seq<u16>, rules: seq<Record>, keyd: seq<Record>)

  /** At most one entry per path. */
  predicate UniquePaths(dfs: seq<DfInfo>) {
    forall i, j :: 0 <= i < j < |dfs| ==> dfs[i].path != dfs[j].path
  }

  /** Every entry is keyed by a path the cache can hold. */
  predicate WellFormed(dfs: seq<DfInfo>) {
    UniquePaths(dfs) && forall i :: 0 <= i < |dfs| ==> 1 <= |dfs[i].path| <= MaxCurPath
  }

  /** The position of the first entry for `path`, as the list walk finds it. */
  function IndexOfPath(dfs: seq<DfInfo>, path: seq<u16>): (r: Option<nat>)
    ensures r.Some? ==> r.value < |dfs| && dfs[r.value].path == path
    ensures r.Some? ==> forall j :: 0 <= j < r.value ==> dfs[j].path != path
    ensures r.None? <==> forall j :: 0 <= j < |dfs| ==> dfs[j].path != path
  {
    if dfs == [] then None
    else if dfs[0].path == path then Some(0)
    else match IndexOfPath(dfs[1..], path)
      case None => None
      case Some(k) => Some(k + 1)
  }

  /** With unique paths, the entry found is the only one for that path. */
  lemma IndexOfPathUnique(dfs: seq<DfInfo>, path: seq<u16>, j: nat)
    requires UniquePaths(dfs) && j < |dfs| && dfs[j].path == path
    ensures IndexOfPath(dfs, path) == Some(j)
  {
  }

  /**
   * `get_df_info`'s effect on the list: nothing when an entry for the path
   * exists, otherwise one new empty entry in front.
   */
  function WithEntry(dfs: seq<DfInfo>, path: seq<u16>): (r: seq<DfInfo>)
    ensures IndexOfPath(r, path).Some?
  {
    if IndexOfPath(dfs, path).Some? then dfs else [DfInfo(path, [], [])] + dfs
  }

  /** Looking up or creating an entry keeps the list free of duplicates and finds the entry for the path. */
  lemma WithEntryKeepsWellFormed(dfs: seq<DfInfo>, path: seq<u16>)
    requires WellFormed(dfs) && 1 <= |path| <= MaxCurPath
    ensures WellFormed(WithEntry(dfs, path))
    ensures var r := IndexOfPath(WithEntry(dfs, path), path);
            r.Some? && (IndexOfPath(dfs, path).None? ==> r == Some(0) && |WithEntry(dfs, path)| == |dfs| + 1)
  {
    var w := WithEntry(dfs, path);
    if IndexOfPath(dfs, path).None? {
      assert w[0].path == path;
      forall i, j | 0 <= i < j < |w|
        ensures w[i].path != w[j].path
      {
        if i > 0 {
          assert w[i] == dfs[i - 1] && w[j] == dfs[j - 1];
        } else {
          assert w[j] == dfs[j - 1];
        }
      }
    }
  }

  // ---------------------------------------------------------------- READ RECORD

  /** A record was returned: `90 00`, or `62 82` (end of record reached before Le bytes). */
  predicate RecordReturned(reply: Reply) {
    reply.Reply? && ((reply.sw1 == 0x90 && reply.sw2 == 0x00) || (reply.sw1 == 0x62 && reply.sw2 == 0x82))
  }

  /** `6A 83`: record not found, which ends the file. */
  predicate NoMoreRecords(reply: Reply) {
    reply.Reply? && reply.sw1 == 0x6A && reply.sw2 == 0x83
  }

  /** The error a reply that is neither a record nor the end of the file makes the load return. */
  function ReadError(reply: Reply): (e: Error)
    requires !RecordReturned(reply)
  {
    match reply
    case TransmitError(code) => TransmitFailed(code)
    case Reply(sw1, sw2, _) => CheckSw(sw1, sw2).error
  }

  /** Records read so far, newest first, numbered consecutively down to `first`. */
  predicate NumberedFrom(records: seq<Record>, first: nat) {
    forall i :: 0 <= i < |records| ==> records[i].recno == first + |records| - 1 - i
  }

  datatype Scan = Scan(outcome: Outcome, records: seq<Record>, sent: seq<Command>)

  /**
   * The `for (recno = 1;; recno++)` loop of `load_special_files` from record
   * `recno` on, after the commands in `log`: the records it reads, newest
   * first (each is put in front of the list), the commands it sends, and how
   * it ends: record not found ends the file, any other reply that is not a
   * record aborts.
   */
  function ScanRecords(o: Oracle, log: seq<Command>, recno: nat): (s: Scan)
    requires 1 <= recno <= MaxRecno + 1
    ensures NumberedFrom(s.records, recno)
    ensures recno + |s.records| <= MaxRecno + 1
    ensures |s.records| <= |s.sent| <= |s.records| + 1
    decreases MaxRecno + 1 - recno
  {
    if recno > MaxRecno then Scan(Success, [], [])
    else
      var cmd := ReadRecord(recno);
      var reply := o(log, cmd);
      if NoMoreRecords(reply) then Scan(Success, [], [cmd])
      else if !RecordReturned(reply) then Scan(Failure(ReadError(reply)), [], [cmd])
      else
        var s := ScanRecords(o, log + [cmd], recno + 1);
        Scan(s.outcome, s.records + [Record(recno, reply.data)], [cmd] + s.sent)
  }

  /** One READ RECORD that returned a record: the scan goes on with the next number. */
  lemma ScanStep(o: Oracle, log: seq<Command>, recno: nat)
    requires 1 <= recno <= MaxRecno && RecordReturned(o(log, ReadRecord(recno)))
    ensures var s' := ScanRecords(o, log + [ReadRecord(recno)], recno + 1);
            ScanRecords(o, log, recno)
            == Scan(s'.outcome, s'.records + [Record(recno, o(log, ReadRecord(recno)).data)], [ReadRecord(recno)] + s'.sent)
  {
  }

  /** A READ RECORD that returned no record ends the scan, with success only when the file ended. */
  lemma ScanEnds(o: Oracle, log: seq<Command>, recno: nat)
    requires 1 <= recno <= MaxRecno && !RecordReturned(o(log, ReadRecord(recno)))
    ensures var reply := o(log, ReadRecord(recno));
            ScanRecords(o, log, recno)
            == Scan(if NoMoreRecords(reply) then Success else Failure(ReadError(reply)), [], [ReadRecord(recno)])
  {
  }

  /**
   * Names the scan still to come. It holds of every scan; a proof mentions
   * it to use `ScanSoFar`, which keeps the solver from unfolding the scan
   * wherever the loop invariant is in scope.
   */
  predicate Remaining(s: Scan) {
    true
  }

  /** `whole` is the records read so far, then the scan from `recno` after `log`. */
  ghost predicate ScanSoFar(o: Oracle, whole: Scan, log: seq<Command>, recno: nat, records: seq<Record>, sent: seq<Command>)
    requires 1 <= recno <= MaxRecno + 1
  {
    forall s {:trigger Remaining(s)} :: s == ScanRecords(o, log, recno) ==> whole == Scan(s.outcome, s.records + records, sent + s.sent)
  }

  /** Before the first READ RECORD, nothing has been read. */
  lemma ScanSoFarStart(o: Oracle, log: seq<Command>, recno: nat)
    requires 1 <= recno <= MaxRecno + 1
    ensures ScanSoFar(o, ScanRecords(o, log, recno), log, recno, [], [])
  {
    var s := ScanRecords(o, log, recno);
    assert s.records + [] == s.records && [] + s.sent == s.sent;
  }

  /** A returned record moves to the front of the records read so far, its command to the end of those sent. */
  lemma ScanSoFarStep(o: Oracle, whole: Scan, log: seq<Command>, recno: nat, records: seq<Record>, sent: seq<Command>, reply: Reply)
    requires 1 <= recno <= MaxRecno && reply == o(log, ReadRecord(recno)) && RecordReturned(reply)
    requires ScanSoFar(o, whole, log, recno, records, sent)
    ensures ScanSoFar(o, whole, log + [ReadRecord(recno)], recno + 1,
                      [Record(recno, reply.data)] + records, sent + [ReadRecord(recno)])
  {
    ScanStep(o, log, recno);
    assert Remaining(ScanRecords(o, log, recno));
    var r := Record(recno, reply.data);
    var s' := ScanRecords(o, log + [ReadRecord(recno)], recno + 1);
    assert s'.records + [r] + records == s'.records + ([r] + records);
    assert sent + ([ReadRecord(recno)] + s'.sent) == sent + [ReadRecord(recno)] + s'.sent;
  }

  /** Past the last record number, the records read so far are the whole scan. */
  lemma ScanSoFarDone(o: Oracle, whole: Scan, log: seq<Command>, recno: nat, records: seq<Record>, sent: seq<Command>)
    requires MaxRecno < recno <= MaxRecno + 1 && ScanSoFar(o, whole, log, recno, records, sent)
    ensures whole == Scan(Success, records, sent)
  {
    assert Remaining(ScanRecords(o, log, recno));
    assert records == [] + records && sent == sent + [];
  }

  /** A reply that is not a record ends the scan with the records read so far. */
  lemma ScanSoFarStops(o: Oracle, whole: Scan, log: seq<Command>, recno: nat, records: seq<Record>, sent: seq<Command>)
    requires 1 <= recno <= MaxRecno && !RecordReturned(o(log, ReadRecord(recno)))
    requires ScanSoFar(o, whole, log, recno, records, sent)
    ensures var reply := o(log, ReadRecord(recno));
            whole == Scan(if NoMoreRecords(reply) then Success else Failure(ReadError(reply)), records, sent + [ReadRecord(recno)])
  {
    ScanEnds(o, log, recno);
    assert Remaining(ScanRecords(o, log, recno));
    assert records == [] + records;
  }

  /** What the j-th record of a scan is: the reply to the j-th command, a READ RECORD of its number. */
  predicate ReadAsRecord(o: Oracle, log: seq<Command>, recno: nat, s: Scan, j: nat)
    requires j < |s.records| && |s.records| <= |s.sent|
  {
    recno + j <= MaxRecno && s.sent[j] == ReadRecord(recno + j)
    && RecordReturned(o(log + s.sent[..j], ReadRecord(recno + j)))
    && s.records[|s.records| - 1 - j] == Record(recno + j, o(log + s.sent[..j], ReadRecord(recno + j)).data)
  }

  /**
   * The j-th record the scan reads was read with READ RECORD of its number, as
   * the j-th command sent, and holds exactly the bytes the card returned.
   */
  lemma {:induction false} ScanReadsRecords(o: Oracle, log: seq<Command>, recno: nat, j: nat)
    requires 1 <= recno <= MaxRecno + 1
    requires j < |ScanRecords(o, log, recno).records|
    ensures ReadAsRecord(o, log, recno, ScanRecords(o, log, recno), j)
    decreases MaxRecno + 1 - recno
  {
    var cmd := ReadRecord(recno);
    assert recno <= MaxRecno && RecordReturned(o(log, cmd));
    ScanStep(o, log, recno);
    if j == 0 {
      assert log + ScanRecords(o, log, recno).sent[..0] == log;
    } else {
      ScanReadsRecords(o, log + [cmd], recno + 1, j - 1);
      ReadAsRecordThrough(o, log, recno, ScanRecords(o, log + [cmd], recno + 1), j - 1);
    }
  }

  lemma ReadAsRecordThrough(o: Oracle, log: seq<Command>, recno: nat, s': Scan, j: nat)
    requires recno <= MaxRecno && RecordReturned(o(log, ReadRecord(recno)))
    requires j < |s'.records| && |s'.records| <= |s'.sent|
    requires ReadAsRecord(o, log + [ReadRecord(recno)], recno + 1, s', j)
    ensures ReadAsRecord(o, log, recno,
                         Scan(s'.outcome, s'.records + [Record(recno, o(log, ReadRecord(recno)).data)], [ReadRecord(recno)] + s'.sent),
                         j + 1)
  {
    var sent := [ReadRecord(recno)] + s'.sent;
    assert sent[..j + 1] == [ReadRecord(recno)] + s'.sent[..j];
    assert log + sent[..j + 1] == log + [ReadRecord(recno)] + s'.sent[..j];
  }

  /**
   * How a scan from `recno` after `log` ended: after the last record it read
   * it sent one more READ RECORD (unless the number range was exhausted), and
   * the reply to that one decided the outcome: record not found is success,
   * anything else that is not a record aborts with that reply's error.
   */
  predicate StoppedProperly(o: Oracle, log: seq<Command>, recno: nat, s: Scan)
    requires |s.records| <= |s.sent|
  {
    var k := recno + |s.records|;
    if k > MaxRecno then s.outcome.Success? && |s.sent| == |s.records|
    else |s.sent| == |s.records| + 1 && s.sent[|s.records|] == ReadRecord(k)
         && var reply := o(log + s.sent[..|s.records|], ReadRecord(k));
            !RecordReturned(reply)
            && (s.outcome.Success? <==> NoMoreRecords(reply))
            && (s.outcome.Failure? ==> s.outcome.error == ReadError(reply))
  }

  /** Every scan stops properly. */
  lemma {:induction false} ScanStops(o: Oracle, log: seq<Command>, recno: nat)
    requires 1 <= recno <= MaxRecno + 1
    ensures StoppedProperly(o, log, recno, ScanRecords(o, log, recno))
    decreases MaxRecno + 1 - recno
  {
    if recno <= MaxRecno {
      var cmd := ReadRecord(recno);
      if !RecordReturned(o(log, cmd)) {
        ScanEnds(o, log, recno);
        assert log + [cmd][..0] == log;
      } else {
        ScanStep(o, log, recno);
        ScanStops(o, log + [cmd], recno + 1);
        StoppedThrough(o, log, recno, ScanRecords(o, log + [cmd], recno + 1));
      }
    }
  }

  lemma StoppedThrough(o: Oracle, log: seq<Command>, recno: nat, s': Scan)
    requires recno <= MaxRecno && RecordReturned(o(log, ReadRecord(recno)))
    requires |s'.records| <= |s'.sent|
    requires StoppedProperly(o, log + [ReadRecord(recno)], recno + 1, s')
    ensures StoppedProperly(o, log, recno,
                            Scan(s'.outcome, s'.records + [Record(recno, o(log, ReadRecord(recno)).data)], [ReadRecord(recno)] + s'.sent))
  {
    var cmd := ReadRecord(recno);
    var sent := [cmd] + s'.sent;
    var n := |s'.records|;
    if recno + 1 + n <= MaxRecno {
      assert sent[..n + 1] == [cmd] + s'.sent[..n];
      AppendAssoc(log, [cmd], s'.sent[..n]);
    }
  }

  /** Every command in `cmds` is a READ RECORD. */
  predicate OnlyReadRecords(cmds: seq<Command>) {
    forall i :: 0 <= i < |cmds| ==> cmds[i].ReadRecord?
  }

  lemma {:induction false} ScanSendsReadRecords(o: Oracle, log: seq<Command>, recno: nat)
    requires 1 <= recno <= MaxRecno + 1
    ensures OnlyReadRecords(ScanRecords(o, log, recno).sent)
    decreases MaxRecno + 1 - recno
  {
    if recno <= MaxRecno {
      var cmd := ReadRecord(recno);
      var reply := o(log, cmd);
      if RecordReturned(reply) && !NoMoreRecords(reply) {
        ScanSendsReadRecords(o, log + [cmd], recno + 1);
      }
    }
  }

  // ---------------------------------------------------------------- load_special_files

  /** What loading the special files of a DF leaves behind, and the commands it sent. */
  datatype Loaded = Loaded(outcome: Outcome, rules: seq<Record>, keyd: seq<Record>, sent: seq<Command>)

  /** The SELECTs of the two special files: EF kind, no FCI (select_part with no file). */
  const SelectRule: Command := PartCommand(SelEf, EfRule, false)
  const SelectKeyD: Command := PartCommand(SelEf, EfKeyD, false)

  /** The EF_KeyD half of the load, after EF_Rule was read completely. */
  function LoadKeyD(o: Oracle, log: seq<Command>, rules: seq<Record>): (l: Loaded)
    ensures |l.sent| > 0 && l.sent[0] == SelectKeyD
    ensures l.rules == rules && NumberedFrom(l.keyd, 1)
  {
    var b := SelectAnswer(o(log, SelectKeyD), false);
    if b == Rejected(FileNotFound) then Loaded(Success, rules, [], [SelectKeyD])
    else if b.Rejected? then Loaded(Failure(b.error), rules, [], [SelectKeyD])
    else
      var ks := ScanRecords(o, log + [SelectKeyD], 1);
      Loaded(ks.outcome, rules, ks.records, [SelectKeyD] + ks.sent)
  }

  /**
   * `load_special_files` once it has decided to read: select EF_Rule and
   * read all its records, then select EF_KeyD and read all of its records; a
   * missing EF_KeyD is not an error. Records read before an abort stay in the
   * lists.
   */
  function Load(o: Oracle, log: seq<Command>): (l: Loaded)
    ensures |l.sent| > 0 && l.sent[0] == SelectRule
    ensures NumberedFrom(l.rules, 1) && NumberedFrom(l.keyd, 1)
  {
    var a := SelectAnswer(o(log, SelectRule), false);
    if a.Rejected? then Loaded(Failure(a.error), [], [], [SelectRule])
    else
      var rs := ScanRecords(o, log + [SelectRule], 1);
      if rs.outcome.Failure? then Loaded(rs.outcome, rs.records, [], [SelectRule] + rs.sent)
      else
        var l := LoadKeyD(o, log + [SelectRule] + rs.sent, rs.records);
        Loaded(l.outcome, l.rules, l.keyd, [SelectRule] + rs.sent + l.sent)
  }

  /** Only READ RECORDs and the two special-file selects are in `cmds`. */
  predicate SpecialFileCommands(cmds: seq<Command>) {
    forall i :: 0 <= i < |cmds| ==> cmds[i].ReadRecord? || cmds[i] == SelectRule || cmds[i] == SelectKeyD
  }

  lemma SpecialFileCommandsAppend(a: seq<Command>, b: seq<Command>)
    requires SpecialFileCommands(a) && SpecialFileCommands(b)
    ensures SpecialFileCommands(a + b)
  {
    assert forall i :: |a| <= i < |a + b| ==> (a + b)[i] == b[i - |a|];
  }

  lemma LoadKeyDSendsOnlySpecialCommands(o: Oracle, log: seq<Command>, rules: seq<Record>)
    ensures SpecialFileCommands(LoadKeyD(o, log, rules).sent)
  {
    if SelectAnswer(o(log, SelectKeyD), false).Accepted? {
      ScanSendsReadRecords(o, log + [SelectKeyD], 1);
      SpecialFileCommandsAppend([SelectKeyD], ScanRecords(o, log + [SelectKeyD], 1).sent);
    }
  }

  /** Loading never selects any file but EF_Rule and EF_KeyD, and never asks for an FCI. */
  lemma LoadSendsOnlySpecialCommands(o: Oracle, log: seq<Command>)
    ensures SpecialFileCommands(Load(o, log).sent)
  {
    if SelectAnswer(o(log, SelectRule), false).Accepted? {
      var rs := ScanRecords(o, log + [SelectRule], 1);
      ScanSendsReadRecords(o, log + [SelectRule], 1);
      SpecialFileCommandsAppend([SelectRule], rs.sent);
      if rs.outcome.Success? {
        var l := LoadKeyD(o, log + [SelectRule] + rs.sent, rs.records);
        LoadKeyDSendsOnlySpecialCommands(o, log + [SelectRule] + rs.sent, rs.records);
        SpecialFileCommandsAppend([SelectRule] + rs.sent, l.sent);
        assert Load(o, log).sent == [SelectRule] + rs.sent + l.sent;
      }
    }
  }

  /** A missing EF_KeyD after a good EF_Rule is a successful load with an empty key list. */
  lemma LoadToleratesMissingKeyD(o: Oracle, log: seq<Command>)
    requires SelectAnswer(o(log, SelectRule), false).Accepted?
    requires var rs := ScanRecords(o, log + [SelectRule], 1);
             rs.outcome.Success? && SelectAnswer(o(log + [SelectRule] + rs.sent, SelectKeyD), false) == Rejected(FileNotFound)
    ensures var l := Load(o, log);
            l.outcome.Success? && l.keyd == [] && l.rules == ScanRecords(o, log + [SelectRule], 1).records
  {
  }

  /** When the card refuses EF_Rule, the load stops after that one select, with both lists empty. */
  lemma LoadWithoutRuleFile(o: Oracle, log: seq<Command>)
    requires SelectAnswer(o(log, SelectRule), false).Rejected?
    ensures Load(o, log) == Loaded(Failure(SelectAnswer(o(log, SelectRule), false).error), [], [], [SelectRule])
  {
  }
}
