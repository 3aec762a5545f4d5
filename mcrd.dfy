/**
 * The MICARDO driver's private data and its operations: the cached current
 * path, the EF flag and the per-DF special files, kept across calls on one
 * card. Each method does what the C function of the same role does, step by
 * step, and is proved to end with exactly the state, the commands and the
 * result that the functions of modules Caching, Store and SecEnv describe.
 */
module Mcrd {
  import opened Wrappers
  import opened Bytes
  import opened Tlv
  import opened Apdu
  import opened Fcp
  import opened Arr
  import opened Selection
  import opened Store
  import opened KeyD
  import opened SecEnv
  import opened Caching

  class Driver {
    /** The reader the driver talks to. */
    const card: Card
    /** The file identifiers of the currently selected file, from the MF down. */
    var curpath: seq<u16>
    /** Whether the last component of `curpath` is an EF. */
    var isEf: bool
    /** The special files seen so far, newest DF first. */
    var dfInfos: seq<DfInfo>

    /** The private data as a value. */
    function Snapshot(): State
      reads this
    {
      State(curpath, isEf, dfInfos)
    }

    predicate Valid()
      reads this
    {
      Caching.Valid(Snapshot())
    }

    /** The outcome of a selection, its new private data, all it sent, and the file it handed back. */
    predicate Agrees(x: Selected, log0: seq<Command>, r: Outcome, file: File?)
      reads this, card, file
    {
      r == x.outcome && Snapshot() == x.state && card.log == log0 + x.sent
      && (file != null <==> !x.fci.NoFci?)
      && (file != null ==> file.Info() == FileOf(x.fci))
    }

    /** The outcome of one SELECT and the file it handed back, against the card's answer. */
    predicate Answered(a: Answer, wantFci: bool, r: Outcome, file: File?)
      reads file
    {
      (r.Success? <==> a.Accepted?) && (a.Rejected? ==> r == Failure(a.error))
      && (file != null <==> a.Accepted? && wantFci)
      && (file != null ==> file.Info() == FileOf(a.fci))
    }

    /** `mcrd_init`: the MF is the current DF, and its special files are loaded. */
    constructor Init(card: Card)
      modifies card
      ensures this.card == card
      ensures var l := LoadSpecial(card.respond, old(card.log), [Mfid], []);
              curpath == [Mfid] && !isEf && dfInfos == l.dfInfos && card.log == old(card.log) + l.sent
      ensures Valid()
    {
      this.card := card;
      curpath := [Mfid];
      isEf := false;
      dfInfos := [];
      new;
      LoadSpecialKeepsWellFormed(card.respond, card.log, [Mfid], []);
      var _ := LoadSpecialFiles();
    }

    /** `get_df_info`: the position of the entry for the current path, created empty if it is missing. */
    method GetDfInfo() returns (idx: Option<nat>)
      modifies this
      ensures curpath == old(curpath) && isEf == old(isEf)
      ensures dfInfos == Touched(old(dfInfos), curpath)
      ensures idx.Some? <==> curpath != []
      ensures idx.Some? ==> IndexOfPath(dfInfos, curpath) == idx
    {
      if curpath == [] {
        return None;
      }
      var i := 0;
      while i < |dfInfos| && dfInfos[i].path != curpath
        invariant 0 <= i <= |dfInfos|
        invariant forall j :: 0 <= j < i ==> dfInfos[j].path != curpath
      {
        i := i + 1;
      }
      if i < |dfInfos| {
        return Some(i);
      }
      // Not found: a new, empty entry goes in front.
      dfInfos := [DfInfo(curpath, [], [])] + dfInfos;
      return Some(0);
    }

    /** The READ RECORD loop of `load_special_files`, from record 1 on. */
    method ReadRecords() returns (outcome: Outcome, records: seq<Record>)
      modifies card
      ensures var s := ScanRecords(card.respond, old(card.log), 1);
              outcome == s.outcome && records == s.records && card.log == old(card.log) + s.sent
    {
      ghost var o := card.respond;
      ghost var log0 := card.log;
      ghost var sent: seq<Command> := [];
      records := [];
      var recno: nat := 1;
      ghost var whole := ScanRecords(o, log0, recno);
      ScanSoFarStart(o, log0, recno);
      assert card.log == log0 + sent;
      while true
        invariant 1 <= recno <= MaxRecno + 1
        invariant card.log == log0 + sent && card.respond == o
        invariant ScanSoFar(o, whole, card.log, recno, records, sent)
        decreases MaxRecno + 1 - recno
      {
        if recno > MaxRecno {
          ScanSoFarDone(o, whole, card.log, recno, records, sent);
          assert whole == Scan(Success, records, sent);
          return Success, records;
        }
        ghost var log1 := card.log;
        var reply := card.Transmit(ReadRecord(recno as byte));
        AppendAssoc(log0, sent, [ReadRecord(recno as byte)]);
        if !RecordReturned(reply) {
          ScanSoFarStops(o, whole, log1, recno, records, sent);
          outcome := StopOutcome(reply);
          assert whole == Scan(outcome, records, sent + [ReadRecord(recno as byte)]);
          assert card.log == log0 + whole.sent;
          return;
        }
        ScanSoFarStep(o, whole, log1, recno, records, sent, reply);
        records := [Record(recno, reply.data)] + records;
        sent := sent + [ReadRecord(recno as byte)];
        recno := recno + 1;
      }
    }

    /** How a READ RECORD reply that carries no record ends the loop: record not found ends the file. */
    static method StopOutcome(reply: Reply) returns (outcome: Outcome)
      requires !RecordReturned(reply)
      ensures outcome == if NoMoreRecords(reply) then Success else Failure(ReadError(reply))
    {
      if reply.TransmitError? {
        return Failure(TransmitFailed(reply.code));
      }
      if reply.sw1 == 0x6A && reply.sw2 == 0x83 {
        return Success; // no more records
      }
      outcome := CheckSw(reply.sw1, reply.sw2);
    }

    /**
     * `load_special_files`: for the current DF, unless its EF_Rule records
     * are cached, empty its entry and read EF_Rule and EF_KeyD into it.
     */
    method LoadSpecialFiles() returns (r: Outcome)
      requires curpath != []
      modifies this, card
      ensures curpath == old(curpath) && isEf == old(isEf)
      ensures var l := LoadSpecial(card.respond, old(card.log), curpath, old(dfInfos));
              r == l.outcome && dfInfos == l.dfInfos && card.log == old(card.log) + l.sent
    {
      ghost var dfs0 := dfInfos;
      var idx := GetDfInfo();
      var i := idx.value;
      TouchedKeepsLists(dfs0, curpath, curpath);
      assert Entry(dfInfos, curpath) == Some(dfInfos[i]);
      if dfInfos[i].rules != [] {
        return Success;
      }
      r := ReadSpecialFiles(i);
    }

    /** The reading half of `load_special_files`, into entry `i`: what `Store.Load` describes. */
    method ReadSpecialFiles(i: nat) returns (r: Outcome)
      requires i < |dfInfos| && dfInfos[i].path == curpath
      modifies this, card
      ensures curpath == old(curpath) && isEf == old(isEf)
      ensures var ld := Load(card.respond, old(card.log));
              r == ld.outcome && card.log == old(card.log) + ld.sent
              && dfInfos == old(dfInfos)[i := DfInfo(curpath, ld.rules, ld.keyd)]
    {
      ghost var log0 := card.log;
      ghost var dfs0 := dfInfos;
      var rules;
      r, rules := ReadRuleFile(i);
      ghost var rs := ScanRecords(card.respond, log0 + [SelectRule], 1);
      if r.Failure? {
        return;
      }
      ghost var log1 := card.log;
      ghost var dfs1 := dfInfos;
      AppendAssoc(log0, [SelectRule], rs.sent);
      assert log1 == log0 + ([SelectRule] + rs.sent);
      r := ReadKeyD(i, rules);
      ghost var l := LoadKeyD(card.respond, log1, rules);
      AppendAssoc(log0, [SelectRule] + rs.sent, l.sent);
      ghost var ld := Load(card.respond, log0);
      assert ld == Loaded(l.outcome, rules, l.keyd, [SelectRule] + rs.sent + l.sent);
      assert card.log == log0 + ld.sent;
      assert dfInfos == dfs0[i := DfInfo(curpath, ld.rules, ld.keyd)];
    }

    /** The EF_Rule half of the load: its records, read into entry `i` with an empty key list. */
    method ReadRuleFile(i: nat) returns (r: Outcome, rules: seq<Record>)
      requires i < |dfInfos| && dfInfos[i].path == curpath
      modifies this, card
      ensures curpath == old(curpath) && isEf == old(isEf)
      ensures dfInfos == old(dfInfos)[i := DfInfo(curpath, rules, [])]
      ensures var ld := Load(card.respond, old(card.log));
              var rs := ScanRecords(card.respond, old(card.log) + [SelectRule], 1);
              if r.Failure? then r == ld.outcome && card.log == old(card.log) + ld.sent && rules == ld.rules && ld.keyd == []
              else SelectAnswer(card.respond(old(card.log), SelectRule), false).Accepted? && rs.outcome.Success?
                   && rules == rs.records && card.log == old(card.log) + [SelectRule] + rs.sent
    {
      ghost var log0 := card.log;
      dfInfos := dfInfos[i := DfInfo(curpath, [], [])];
      rules := [];
      var unused: File?;
      r, unused := SelectPart(SelEf, EfRule, false);
      if r.Failure? {
        assert Load(card.respond, log0) == Loaded(r, [], [], [SelectRule]);
        return;
      }
      r, rules := ReadRecords();
      ghost var rs := ScanRecords(card.respond, log0 + [SelectRule], 1);
      AppendAssoc(log0, [SelectRule], rs.sent);
      dfInfos := dfInfos[i := DfInfo(curpath, rules, [])];
      if r.Failure? {
        assert Load(card.respond, log0) == Loaded(r, rules, [], [SelectRule] + rs.sent);
      }
    }

    /** The EF_KeyD half of the load: what `Store.LoadKeyD` describes. */
    method ReadKeyD(i: nat, rules: seq<Record>) returns (r: Outcome)
      requires i < |dfInfos| && dfInfos[i] == DfInfo(curpath, rules, [])
      modifies this, card
      ensures curpath == old(curpath) && isEf == old(isEf)
      ensures var l := LoadKeyD(card.respond, old(card.log), rules);
              r == l.outcome && card.log == old(card.log) + l.sent
              && dfInfos == old(dfInfos)[i := DfInfo(curpath, rules, l.keyd)]
    {
      ghost var dfs0 := dfInfos;
      ghost var log0 := card.log;
      assert dfs0[i := DfInfo(curpath, rules, [])] == dfs0;
      var unused: File?;
      r, unused := SelectPart(SelEf, EfKeyD, false);
      assert card.log == log0 + [SelectKeyD] && dfInfos == dfs0;
      if r == Failure(FileNotFound) {
        return Success; // a DF without EF_KeyD is fine
      }
      if r.Failure? {
        return;
      }
      var keyd;
      r, keyd := ReadRecords();
      ghost var ks := ScanRecords(card.respond, log0 + [SelectKeyD], 1);
      assert r == ks.outcome && keyd == ks.records;
      AppendAssoc(log0, [SelectKeyD], ks.sent);
      ghost var l := LoadKeyD(card.respond, log0, rules);
      assert l == Loaded(ks.outcome, rules, ks.records, [SelectKeyD] + ks.sent);
      dfInfos := dfInfos[i := DfInfo(curpath, rules, keyd)];
    }

    /** `do_select`: one SELECT; with the FCI wanted, a new file filled in from its FCP. */
    method DoSelect(kind: byte, data: seq<byte>, wantFci: bool) returns (r: Outcome, file: File?)
      modifies this, card
      ensures var cmd := Select(kind, data, wantFci);
              var a := SelectAnswer(card.respond(old(card.log), cmd), wantFci);
              card.log == old(card.log) + [cmd] && Answered(a, wantFci, r, file)
              && dfInfos == (if a.Accepted? then FcpTouch(old(dfInfos), curpath, a.fci) else old(dfInfos))
      ensures file != null ==> fresh(file)
      ensures curpath == old(curpath) && isEf == old(isEf)
    {
      var reply := card.Transmit(Select(kind, data, wantFci));
      if reply.TransmitError? {
        return Failure(TransmitFailed(reply.code)), null;
      }
      if !wantFci {
        if reply.sw1 == 0x61 {
          return Success, null;
        }
        return CheckSw(reply.sw1, reply.sw2), null;
      }
      r := CheckSw(reply.sw1, reply.sw2);
      if r.Failure? {
        return r, null;
      }
      if |reply.data| == 0 || reply.data[0] != 0x6F {
        return Failure(UnknownDataReceived), null;
      }
      file := new File();
      var body := FcpBody(reply.data);
      if body.Some? {
        var _ := ProcessFcp(file, body.value);
      }
    }

    /** `select_part`: SELECT of one file identifier, the MF always with the MF kind. */
    method SelectPart(kind: byte, fid: u16, wantFci: bool) returns (r: Outcome, file: File?)
      modifies this, card
      ensures var cmd := PartCommand(kind, fid, wantFci);
              var a := SelectAnswer(card.respond(old(card.log), cmd), wantFci);
              card.log == old(card.log) + [cmd] && Answered(a, wantFci, r, file)
              && dfInfos == (if a.Accepted? then FcpTouch(old(dfInfos), curpath, a.fci) else old(dfInfos))
      ensures file != null ==> fresh(file)
      ensures curpath == old(curpath) && isEf == old(isEf)
    {
      var k := if fid == Mfid then SelMf else kind;
      r, file := DoSelect(k, FidBytes(fid), wantFci);
    }

    /**
     * `select_down`: descend along `path` from the cached path; on success
     * the EF flag records what the descent found, and a DF target gets its
     * special files loaded (a failure to load them is not reported).
     */
    method SelectDown(path: seq<u16>, dfOnly: bool, wantFci: bool) returns (r: Outcome, file: File?)
      modifies this, card
      ensures Agrees(Down(card.respond, old(card.log), old(Snapshot()), path, dfOnly, wantFci), old(card.log), r, file)
      ensures file != null ==> fresh(file)
    {
      if path == [] {
        return Failure(InvalidArguments), null;
      }
      ghost var log0 := card.log;
      ghost var d := Descend(card.respond, log0, path, dfOnly, wantFci, |curpath|);
      var foundEf;
      r, foundEf, file := DescendPath(path, dfOnly, wantFci);
      if r.Failure? {
        return;
      }
      isEf := foundEf;
      if !foundEf {
        ghost var l := LoadSpecial(card.respond, card.log, curpath, dfInfos);
        var _ := LoadSpecialFiles();
        AppendAssoc(log0, d.sent, l.sent);
      }
    }

    /**
     * The MF select of `select_file_by_path` and `select_file_by_fid` (also
     * used for the first component of a relative path from an empty cache):
     * the cache is emptied first, and holds just `fid` once the card accepts.
     */
    method SelectRoot(fid: u16, wantFci: bool) returns (r: Outcome, file: File?)
      modifies this, card
      ensures Agrees(SelectMf(card.respond, old(card.log), old(Snapshot()), fid, wantFci), old(card.log), r, file)
      ensures file != null ==> fresh(file)
    {
      curpath := [];
      r, file := SelectPart(SelMf, fid, wantFci);
      if r.Failure? {
        return;
      }
      curpath := [fid];
      isEf := false;
    }

    /** Relative addressing: the MF first from an empty cache, one level up from an EF, then down along the path. */
    method SelectRelative(path: seq<u16>, wantFci: bool) returns (r: Outcome, file: File?)
      requires path != []
      modifies this, card
      ensures Agrees(Relative(card.respond, old(card.log), old(Snapshot()), path, wantFci), old(card.log), r, file)
      ensures file != null ==> fresh(file)
    {
      ghost var log0 := card.log;
      ghost var s0 := Snapshot();
      ghost var m: Selected;
      file := null;
      if curpath == [] {
        m := SelectMf(card.respond, log0, s0, path[0], wantFci);
        r, file := SelectRoot(path[0], wantFci);
        if r.Failure? {
          return;
        }
      }
      ghost var log1 := card.log;
      if isEf {
        curpath := curpath[..|curpath| - 1];
        isEf := false;
      }
      ghost var s1 := Snapshot();
      var next: File?;
      r, next := SelectDown(path, false, wantFci);
      ghost var d := Down(card.respond, log1, s1, path, false, wantFci);
      if next != null {
        file := next;
      }
      if s0.curpath == [] {
        assert log1 == log0 + m.sent && card.log == log1 + d.sent;
        AppendAssoc(log0, m.sent, d.sent);
        assert Relative(card.respond, log0, s0, path, wantFci)
               == Selected(d.outcome, d.state, m.sent + d.sent, if d.fci.NoFci? then m.fci else d.fci);
      } else {
        assert Relative(card.respond, log0, s0, path, wantFci) == d;
      }
    }

    /** `select_file_by_path`: a leading 3FFF dropped, the length checked, then the MF, an absolute or a relative path. */
    method SelectFileByPath(path: seq<u16>, wantFci: bool) returns (r: Outcome, file: File?)
      modifies this, card
      ensures Agrees(ByPath(card.respond, old(card.log), old(Snapshot()), path, wantFci), old(card.log), r, file)
      ensures file != null ==> fresh(file)
    {
      var p := path;
      if |p| > 0 && p[0] == CurrentDf {
        p := p[1..];
      }
      if p == [] || |p| >= MaxCurPath {
        return Failure(InvalidArguments), null;
      }
      if |p| == 1 && p[0] == Mfid {
        r, file := SelectRoot(p[0], wantFci);
      } else if p[0] == Mfid {
        r, file := SelectAbsolute(p, wantFci);
      } else {
        r, file := SelectRelative(p, wantFci);
      }
    }

    /** The absolute-addressing branch of `select_file_by_path`: how much of the cached path is kept. */
    method SelectAbsolute(p: seq<u16>, wantFci: bool) returns (r: Outcome, file: File?)
      requires p != []
      modifies this, card
      ensures Agrees(Absolute(card.respond, old(card.log), old(Snapshot()), p, wantFci), old(card.log), r, file)
      ensures file != null ==> fresh(file)
    {
      var i := 0;
      while i < |p| && i < |curpath| && p[i] == curpath[i]
        invariant i <= |p| && i <= |curpath| && p[..i] == curpath[..i]
      {
        assert p[..i + 1] == p[..i] + [p[i]] && curpath[..i + 1] == curpath[..i] + [curpath[i]];
        i := i + 1;
      }
      CommonPrefixUnique(p, curpath, i);
      if curpath == [] {
        isEf := false;
        r, file := SelectDown(p, false, wantFci);
      } else if i == |p| && i < |curpath| {
        // Going up: the target is a DF; start at the root.
        curpath := [];
        isEf := false;
        r, file := SelectDown(p, true, wantFci);
      } else if i == |p| && i == |curpath| {
        if !wantFci {
          return Success, null;
        }
        // Already selected, but the FCI is wanted: select the last component again from one level up.
        curpath := curpath[..|curpath| - 1];
        isEf := false;
        r, file := SelectDown([p[|p| - 1]], false, wantFci);
      } else {
        curpath := [];
        isEf := false;
        r, file := SelectDown(p, false, wantFci);
      }
    }

    /**
     * `select_file_by_fid`: at most one identifier; 3FFF is the current DF;
     * an empty request wanting the FCI reselects the identifier the unused
     * request buffer holds, `unsetFid`, from one level up.
     */
    method SelectFileByFid(path: seq<u16>, wantFci: bool, unsetFid: u16) returns (r: Outcome, file: File?)
      modifies this, card
      ensures Agrees(ByFid(card.respond, old(card.log), old(Snapshot()), path, wantFci, unsetFid), old(card.log), r, file)
      ensures file != null ==> fresh(file)
    {
      if |path| > 1 {
        return Failure(InvalidArguments), null;
      }
      if |path| == 1 && path[0] == CurrentDf {
        return Success, null;
      }
      if path == [] {
        if !wantFci {
          return Success, null;
        }
        if curpath == [] {
          return Failure(Internal), null; // there is no current file
        }
        curpath := curpath[..|curpath| - 1];
        isEf := false;
        r, file := SelectDown([unsetFid], false, wantFci);
      } else if path[0] == Mfid {
        r, file := SelectRoot(Mfid, wantFci);
      } else {
        r, file := SelectRelative(path, wantFci);
      }
    }

    /** The path bytes of a request, two by two, into file identifiers. */
    method DecodeFids(value: seq<byte>) returns (fids: seq<u16>)
      requires |value| % 2 == 0
      ensures fids == DecodePath(value)
    {
      fids := [];
      var n := 0;
      while n < |value|
        invariant n <= |value| && n % 2 == 0 && |fids| == n / 2
        invariant forall j :: 0 <= j < |fids| ==> fids[j] == Be16(value[2 * j], value[2 * j + 1])
      {
        fids := fids + [Be16(value[n], value[n + 1])];
        n := n + 2;
      }
      forall j | 0 <= j < |fids|
        ensures fids[j] == DecodePath(value)[j]
      {
        DecodePathAt(value, j);
      }
    }

    /**
     * `mcrd_select_file`: a DF name is selected directly and empties the
     * cached path whatever the card answers; otherwise the path bytes are
     * checked, decoded and handed to the path or the file-identifier case.
     */
    method SelectFile(pathType: PathType, value: seq<byte>, wantFci: bool, unsetFid: u16) returns (r: Outcome, file: File?)
      modifies this, card
      ensures Agrees(Caching.SelectFile(card.respond, old(card.log), old(Snapshot()), pathType, value, wantFci, unsetFid),
                     old(card.log), r, file)
      ensures old(Valid()) ==> Valid()
      ensures file != null ==> fresh(file)
    {
      ghost var log0 := card.log;
      ghost var s0 := Snapshot();
      if Valid() {
        SelectFileKeepsValid(card.respond, log0, s0, pathType, value, wantFci, unsetFid);
      }
      if pathType == DfName {
        if |value| > MaxAidBytes {
          return Failure(InvalidArguments), null;
        }
        r, file := DoSelect(SelAid, value, wantFci);
        curpath := [];
        return;
      }
      if |value| % 2 == 1 || |value| > MaxPathBytes {
        return Failure(InvalidArguments), null;
      }
      var fids := DecodeFids(value);
      SelectFileDispatch(card.respond, log0, s0, pathType, value, wantFci, unsetFid);
      if pathType == PathType {
        r, file := SelectFileByPath(fids, wantFci);
      } else {
        r, file := SelectFileByFid(fids, wantFci, unsetFid);
      }
    }

    /**
     * The loop of `select_down`: every component but the last selected as a
     * DF and appended to `curpath`, the last one through `SelectLast`; the
     * loop stops at the first refusal or when the cache is full.
     */
    method DescendPath(path: seq<u16>, dfOnly: bool, wantFci: bool) returns (r: Outcome, foundEf: bool, file: File?)
      requires path != []
      modifies this, card
      ensures var d := Descend(card.respond, old(card.log), path, dfOnly, wantFci, |old(curpath)|);
              r == d.outcome && foundEf == d.foundEf && card.log == old(card.log) + d.sent
              && curpath == old(curpath) + path[..d.selected] && isEf == old(isEf)
              && (file != null <==> !d.fci.NoFci?) && (file != null ==> file.Info() == FileOf(d.fci))
              && dfInfos == (if d.outcome.Success? then FcpTouch(old(dfInfos), old(curpath) + path[..|path| - 1], d.fci) else old(dfInfos))
      ensures file != null ==> fresh(file)
    {
      ghost var o := card.respond;
      ghost var log0 := card.log;
      ghost var cur0 := curpath;
      ghost var whole := Descend(o, log0, path, dfOnly, wantFci, |curpath|);
      DescentSoFarStart(o, log0, path, dfOnly, wantFci, |curpath|);
      var k;
      ghost var sent;
      r, k, sent := DescendPrefix(path, dfOnly, wantFci, whole);
      if r.Failure? {
        return r, false, null;
      }
      DescentSoFarLast(o, whole, card.log, path, k, sent, dfOnly, wantFci, |curpath|);
      ghost var last := LastStep(o, card.log, path[k], dfOnly, wantFci);
      ghost var dfs1 := dfInfos;
      r, foundEf, file := SelectLast(path[k], dfOnly, wantFci);
      AppendAssoc(log0, sent, last.sent);
      assert r == whole.outcome && foundEf == whole.foundEf && last.fci == whole.fci;
      assert card.log == log0 + whole.sent;
      if r.Success? {
        assert path[..k + 1] == path[..k] + [path[k]];
        assert path[..|path|] == path;
        assert whole.selected == |path| && curpath == cur0 + path;
        assert dfInfos == FcpTouch(dfs1, cur0 + path[..|path| - 1], whole.fci);
      } else {
        assert whole.selected == k && curpath == cur0 + path[..k] && dfInfos == dfs1;
      }
    }

    /**
     * The components of `path` before the last, each selected as a DF and
     * appended to `curpath`, until one is refused or the cache is full.
     * `whole` is the descent the caller is proving, and `sent` what was sent
     * of it so far.
     */
    method DescendPrefix(path: seq<u16>, dfOnly: bool, wantFci: bool, ghost whole: Descent)
      returns (r: Outcome, k: nat, ghost sent: seq<Command>)
      requires path != []
      requires DescentSoFar(card.respond, whole, card.log, path, 0, [], dfOnly, wantFci, |curpath|)
      modifies this, card
      ensures k <= |path| - 1 && card.log == old(card.log) + sent
      ensures curpath == old(curpath) + path[..k] && isEf == old(isEf) && dfInfos == old(dfInfos)
      ensures r.Success? ==> k == |path| - 1 && |curpath| < MaxCurPath
                             && DescentSoFar(card.respond, whole, card.log, path, k, sent, dfOnly, wantFci, |curpath|)
      ensures r.Failure? ==> whole == Descent(r, k, false, sent, NoFci)
    {
      ghost var o := card.respond;
      ghost var log0 := card.log;
      ghost var cur0 := curpath;
      sent := [];
      assert card.log == log0 + sent;
      k := 0;
      while k < |path| - 1
        invariant k <= |path| - 1
        invariant curpath == cur0 + path[..k] && isEf == old(isEf) && dfInfos == old(dfInfos)
        invariant card.respond == o && card.log == log0 + sent
        invariant DescentSoFar(o, whole, card.log, path, k, sent, dfOnly, wantFci, |curpath|)
      {
        if |curpath| >= MaxCurPath {
          DescentSoFarFull(o, whole, card.log, path, k, sent, dfOnly, wantFci, |curpath|);
          return Failure(Internal), k, sent;
        }
        ghost var log1 := card.log;
        ghost var depth := |curpath|;
        r := EnterDf(path[k]);
        AppendAssoc(log0, sent, [PartCommand(SelDf, path[k], false)]);
        if r.Failure? {
          DescentSoFarRejected(o, whole, log1, path, k, sent, dfOnly, wantFci, depth);
          return r, k, sent + [PartCommand(SelDf, path[k], false)];
        }
        DescentSoFarStep(o, whole, log1, path, k, sent, dfOnly, wantFci, depth);
        assert path[..k + 1] == path[..k] + [path[k]];
        sent := sent + [PartCommand(SelDf, path[k], false)];
        k := k + 1;
      }
      if |curpath| >= MaxCurPath {
        DescentSoFarFull(o, whole, card.log, path, k, sent, dfOnly, wantFci, |curpath|);
        return Failure(Internal), k, sent;
      }
      r := Success;
    }

    /** A component before the last in `select_down`: selected as a DF, no file wanted, and appended to `curpath` when accepted. */
    method EnterDf(fid: u16) returns (r: Outcome)
      modifies this, card
      ensures var cmd := PartCommand(SelDf, fid, false);
              var a := SelectAnswer(card.respond(old(card.log), cmd), false);
              card.log == old(card.log) + [cmd] && (r.Success? <==> a.Accepted?) && (a.Rejected? ==> r == Failure(a.error))
              && curpath == old(curpath) + (if a.Accepted? then [fid] else []) && isEf == old(isEf) && dfInfos == old(dfInfos)
    {
      var unused: File?;
      r, unused := SelectPart(SelDf, fid, false);
      if r.Success? {
        curpath := curpath + [fid];
      }
    }

    /**
     * The last component of `select_down`: tried as an EF first unless only
     * DFs are wanted, and as a DF when that fails, with the file wanted.
     */
    method SelectLast(fid: u16, dfOnly: bool, wantFci: bool) returns (r: Outcome, foundEf: bool, file: File?)
      modifies this, card
      ensures var d := LastStep(card.respond, old(card.log), fid, dfOnly, wantFci);
              r == d.outcome && foundEf == d.foundEf && card.log == old(card.log) + d.sent
              && curpath == old(curpath) + (if r.Success? then [fid] else []) && isEf == old(isEf)
              && (file != null <==> !d.fci.NoFci?) && (file != null ==> file.Info() == FileOf(d.fci))
              && dfInfos == (if r.Success? then FcpTouch(old(dfInfos), old(curpath), d.fci) else old(dfInfos))
      ensures file != null ==> fresh(file)
    {
      r := Failure(Internal);
      foundEf := false;
      file := null;
      if !dfOnly {
        r, file := SelectPart(SelEf, fid, wantFci);
        foundEf := r.Success?;
      }
      if !foundEf {
        r, file := SelectPart(SelDf, fid, wantFci);
      }
      if r.Success? {
        curpath := curpath + [fid];
      }
    }

    /**
     * `process_fcp`: the fields the FCP carries go into `file`, and a short
     * ARR reference is looked up in the current DF's rules.
     */
    method ProcessFcp(file: File, fcp: seq<byte>) returns (acl: AclResult)
      modifies this, file
      ensures file.Info() == DecodeInto(old(file.Info()), fcp)
      ensures dfInfos == FcpTouch(old(dfInfos), curpath, FcpBytes(fcp))
      ensures acl == AclOf(old(dfInfos), curpath, FcpArrRef(fcp))
      ensures curpath == old(curpath) && isEf == old(isEf)
    {
      file.Decode(fcp);
      acl := NoArr;
      var ref := FcpArrRef(fcp);
      if ref.Some? {
        acl := ProcessArrRef(ref.value);
      }
    }

    /** `process_arr`: find the EF_Rule record a one-byte ARR reference names and interpret it. */
    method ProcessArrRef(ref: seq<byte>) returns (acl: AclResult)
      modifies this
      ensures dfInfos == (if |ref| == 1 then Touched(old(dfInfos), curpath) else old(dfInfos))
      ensures acl == AclOf(old(dfInfos), curpath, Some(ref))
      ensures curpath == old(curpath) && isEf == old(isEf)
    {
      if |ref| != 1 {
        return LongArrUnsupported(ref);
      }
      ghost var dfs0 := dfInfos;
      var idx := GetDfInfo();
      var rules: seq<Record> := [];
      if idx.Some? {
        rules := dfInfos[idx.value].rules;
        TouchedKeepsLists(dfs0, curpath, curpath);
      }
      assert rules == CurrentRules(dfs0, curpath);
      var k := 0;
      while k < |rules| && rules[k].recno != ref[0] as nat
        invariant 0 <= k <= |rules|
        invariant forall j :: 0 <= j < k ==> rules[j].recno != ref[0] as nat
      {
        k := k + 1;
      }
      if k == |rules| {
        return RuleNotFound(ref[0]);
      }
      assert FindRule(rules, ref[0]) == Some(k);
      var items := ProcessArr(rules[k].data);
      return RuleObjects(ref[0], items);
    }
  
    // ---------------------------------------------------------------- security environment and signing

    /**
     * `get_se_num_from_keyd`: the first cached EF_KeyD record of the current
     * DF whose `83` object names `fid` and that carries an SE number; the
     * reference data of every record naming `fid` is written on the way.
     */
    method GetSeNumFromKeyd(fid: u16) returns (num: int, refData: Option<(byte, byte)>)
      modifies this
      ensures SeLookup(num, refData) == SeNumFromRecords(CurrentKeyD(old(dfInfos), curpath), fid, None)
      ensures curpath == old(curpath) && isEf == old(isEf) && dfInfos == Touched(old(dfInfos), curpath)
    {
      ghost var dfs0 := dfInfos;
      var idx := GetDfInfo();
      if idx.None? {
        return -1, None; // no current DF
      }
      TouchedKeepsLists(dfs0, curpath, curpath);
      assert Entry(dfInfos, curpath) == Some(dfInfos[idx.value]);
      var keyd := dfInfos[idx.value].keyd;
      assert keyd == CurrentKeyD(dfs0, curpath);
      if keyd == [] {
        return -1, None; // EF_KeyD not loaded
      }
      num, refData := LookupKeyD(keyd, fid);
    }

    /** `restore_se`: MSE RESTORE of SE `seNum`. */
    method RestoreEnvironment(seNum: byte) returns (r: Outcome)
      modifies card
      ensures card.log == old(card.log) + [RestoreSe(seNum)]
      ensures r == StatusOf(card.respond(old(card.log), RestoreSe(seNum)))
    {
      var reply := card.Transmit(RestoreSe(seNum));
      if reply.TransmitError? {
        return Failure(TransmitFailed(reply.code));
      }
      r := CheckSw(reply.sw1, reply.sw2);
    }

    /**
     * `mcrd_set_security_env`: only SE 0 and the decipher and sign operations
     * with a key file reference are accepted; the key's SE is restored when
     * the lookup names one other than 0, then MSE SET is sent.
     */
    method SetSecurityEnv(env: SecurityEnv, seNum: int) returns (r: Outcome)
      modifies this, card
      ensures var x := SetEnvExchange(card.respond, old(card.log), env, seNum, CurrentKeyD(old(dfInfos), curpath));
              r == x.outcome && card.log == old(card.log) + x.sent
      ensures curpath == old(curpath) && isEf == old(isEf)
      ensures dfInfos == if seNum == 0 && MseP2(env.operation).Some? && HasKeyFile(env)
                         then Touched(old(dfInfos), curpath) else old(dfInfos)
    {
      if seNum != 0 {
        return Failure(InvalidArguments);
      }
      var p2: byte;
      match env.operation {
        case Decipher => p2 := 0xB8;
        case Sign => p2 := 0xB6;
        case OtherOperation(_) => return Failure(InvalidArguments);
      }
      if !(env.fileRef.Some? && |env.fileRef.value| > 1) {
        return Failure(InvalidArguments);
      }
      var ref := env.fileRef.value;
      var fid := Be16(ref[|ref| - 2], ref[|ref| - 1]);
      assert fid == KeyFile(ref);
      r := SetKeyEnv(p2, fid);
    }

    /** `mcrd_set_security_env` once its arguments pass: the key's SE looked up and restored, then MSE SET. */
    method SetKeyEnv(p2: byte, fid: u16) returns (r: Outcome)
      modifies this, card
      ensures var x := KeyExchange(card.respond, old(card.log), p2, SeNumFromRecords(CurrentKeyD(old(dfInfos), curpath), fid, None));
              r == x.outcome && card.log == old(card.log) + x.sent
      ensures curpath == old(curpath) && isEf == old(isEf) && dfInfos == Touched(old(dfInfos), curpath)
    {
      ghost var log0 := card.log;
      ghost var o := card.respond;
      ghost var lookup := SeNumFromRecords(CurrentKeyD(dfInfos, curpath), fid, None);
      var data: seq<byte> := [0x83, 0x03, 0x80];
      var num, refData := GetSeNumFromKeyd(fid);
      assert lookup == SeLookup(num, refData) && card.log == log0;
      if num != -1 {
        // Need to restore the security environment.
        if num != 0 {
          r := RestoreEnvironment(num as byte);
          if r.Failure? {
            assert KeyExchange(o, log0, p2, lookup) == Exchange(r, [RestoreSe(num as byte)]);
            return;
          }
        }
        data := data + [refData.value.0, refData.value.1];
      }
      assert data == MseData(lookup);
      ghost var restore := RestoreCommands(lookup);
      assert card.log == log0 + restore;
      r := SendSetSe(p2, data);
      assert KeyExchange(o, log0, p2, lookup) == Exchange(r, restore + [SetSe(p2, data)]);
      AppendAssoc(log0, restore, [SetSe(p2, data)]);
    }

    /** The MSE SET command of `mcrd_set_security_env`. */
    method SendSetSe(p2: byte, data: seq<byte>) returns (r: Outcome)
      modifies card
      ensures card.log == old(card.log) + [SetSe(p2, data)]
      ensures r == StatusOf(card.respond(old(card.log), SetSe(p2, data)))
    {
      var reply := card.Transmit(SetSe(p2, data));
      if reply.TransmitError? {
        return Failure(TransmitFailed(reply.code));
      }
      r := CheckSw(reply.sw1, reply.sw2);
    }

    /**
     * `mcrd_compute_signature`: PERFORM SECURITY OPERATION on at most 255
     * bytes; the signature comes with `90 00`, or after `60 61` from a GET
     * RESPONSE, and is cut to the caller's `outlen`.
     */
    method ComputeSignature(data: seq<byte>, outlen: nat) returns (res: Result<seq<byte>>)
      modifies card
      ensures var s := SignExchange(card.respond, old(card.log), data, outlen);
              res == s.result && card.log == old(card.log) + s.sent
    {
      if |data| > 255 {
        return Err(InvalidArguments);
      }
      var reply := card.Transmit(PerformSignature(data));
      if reply.TransmitError? {
        return Err(TransmitFailed(reply.code));
      }
      if reply.sw1 == 0x90 && reply.sw2 == 0x00 {
        var len := if |reply.data| > outlen then outlen else |reply.data|;
        return Ok(reply.data[..len]);
      } else if reply.sw1 == 0x60 && reply.sw2 == 0x61 {
        var more := card.Transmit(GetResponse);
        if more.TransmitError? {
          return Err(TransmitFailed(more.code));
        }
        var len := if |more.data| > outlen then outlen else |more.data|;
        return Ok(more.data[..len]);
      }
      res := Err(CheckSw(reply.sw1, reply.sw2).error);
    }
  }
}
