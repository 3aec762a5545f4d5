/**
 * The driver's private data as a value (the cached current path, whether it
 * ends on an EF, and the per-DF list of special files) and, as functions of
 * the card oracle, how each operation of the selection core changes it and
 * which commands it sends. The methods of `Mcrd.Driver` are proved to do
 * exactly this; the lemmas here say what that amounts to.
 */
module Caching {
  import opened Wrappers
  import opened Bytes
  import opened Apdu
  import opened Selection
  import opened Store
  import opened Fcp
  import opened Arr

  /** `curpath[..curpathlen]`, `is_ef` and `df_infos` of the private data. */
  datatype State = State(curpath: seq<u16>, isEf: bool, dfInfos: seq<DfInfo>)

  /** What the driver keeps true of its private data: the path fits the cache, and the DF list is well formed. */
  predicate Valid(s: State) {
    |s.curpath| <= MaxCurPath && WellFormed(s.dfInfos)
  }

  // ---------------------------------------------------------------- DF entries

  /** The entry for a path, as the list walk of `get_df_info` finds it. */
  function Entry(dfs: seq<DfInfo>, path: seq<u16>): (e: Option<DfInfo>)
    ensures e.Some? ==> e.value.path == path && e.value in dfs
    ensures e.None? <==> forall j :: 0 <= j < |dfs| ==> dfs[j].path != path
  {
    match IndexOfPath(dfs, path)
    case Some(i) => Some(dfs[i])
    case None => None
  }

  /** The cached EF_Rule records of a DF; none when it has no entry. */
  function RulesOf(dfs: seq<DfInfo>, path: seq<u16>): seq<Record> {
    if Entry(dfs, path).Some? then Entry(dfs, path).value.rules else []
  }

  /** The cached EF_KeyD records of a DF; none when it has no entry. */
  function KeyDOf(dfs: seq<DfInfo>, path: seq<u16>): seq<Record> {
    if Entry(dfs, path).Some? then Entry(dfs, path).value.keyd else []
  }

  /** The EF_Rule records `get_df_info` reaches for the current path: none without one. */
  function CurrentRules(dfs: seq<DfInfo>, curpath: seq<u16>): seq<Record> {
    if curpath == [] then [] else RulesOf(dfs, curpath)
  }

  /** The EF_KeyD records `get_df_info` reaches for the current path: none without one. */
  function CurrentKeyD(dfs: seq<DfInfo>, curpath: seq<u16>): seq<Record> {
    if curpath == [] then [] else KeyDOf(dfs, curpath)
  }

  /** `get_df_info`'s effect: none without a current path, otherwise an entry for it exists afterwards. */
  function Touched(dfs: seq<DfInfo>, curpath: seq<u16>): (r: seq<DfInfo>)
    ensures curpath != [] ==> Entry(r, curpath).Some?
  {
    if curpath == [] then dfs else WithEntry(dfs, curpath)
  }

  /** Creating an entry never changes what is cached for any DF: a new entry is empty. */
  lemma WithEntryKeepsLists(dfs: seq<DfInfo>, path: seq<u16>, p: seq<u16>)
    ensures RulesOf(WithEntry(dfs, path), p) == RulesOf(dfs, p)
    ensures KeyDOf(WithEntry(dfs, path), p) == KeyDOf(dfs, p)
  {
    if IndexOfPath(dfs, path).None? {
      var t := WithEntry(dfs, path);
      assert t == [DfInfo(path, [], [])] + dfs;
      assert t[1..] == dfs;
      if p != path {
        match IndexOfPath(dfs, p)
        case Some(k) => assert IndexOfPath(t, p) == Some(k + 1);
        case None => assert IndexOfPath(t, p).None?;
      }
    }
  }

  lemma TouchedKeepsLists(dfs: seq<DfInfo>, curpath: seq<u16>, p: seq<u16>)
    ensures RulesOf(Touched(dfs, curpath), p) == RulesOf(dfs, p)
    ensures KeyDOf(Touched(dfs, curpath), p) == KeyDOf(dfs, p)
  {
    if curpath != [] {
      WithEntryKeepsLists(dfs, curpath, p);
    }
  }

  lemma FcpTouchKeepsLists(dfs: seq<DfInfo>, curpath: seq<u16>, fci: FciBody, p: seq<u16>)
    ensures RulesOf(FcpTouch(dfs, curpath, fci), p) == RulesOf(dfs, p)
    ensures KeyDOf(FcpTouch(dfs, curpath, fci), p) == KeyDOf(dfs, p)
  {
    TouchedKeepsLists(dfs, curpath, p);
  }

  lemma TouchedKeepsWellFormed(dfs: seq<DfInfo>, curpath: seq<u16>)
    requires WellFormed(dfs) && |curpath| <= MaxCurPath
    ensures WellFormed(Touched(dfs, curpath))
  {
    if curpath != [] {
      WithEntryKeepsWellFormed(dfs, curpath);
    }
  }

  // ---------------------------------------------------------------- process_fcp and process_arr

  /** The FCP refers to an access rule by a one-byte record number, the only form `process_arr` handles. */
  predicate ShortArr(fcp: seq<byte>) {
    FcpArrRef(fcp).Some? && |FcpArrRef(fcp).value| == 1
  }

  /** The effect on the DF list of decoding an FCI: only a short ARR reference looks the DF's entry up. */
  function FcpTouch(dfs: seq<DfInfo>, curpath: seq<u16>, fci: FciBody): seq<DfInfo> {
    if fci.FcpBytes? && ShortArr(fci.fcp) then Touched(dfs, curpath) else dfs
  }

  /** The position of the first record numbered `recno`. */
  function FindRule(rules: seq<Record>, recno: byte): (r: Option<nat>)
    ensures r.Some? ==> r.value < |rules| && rules[r.value].recno == recno
    ensures r.Some? ==> forall j :: 0 <= j < r.value ==> rules[j].recno != recno
    ensures r.None? <==> forall j :: 0 <= j < |rules| ==> rules[j].recno != recno
  {
    if rules == [] then None
    else if rules[0].recno == recno then Some(0)
    else match FindRule(rules[1..], recno)
      case None => None
      case Some(k) => Some(k + 1)
  }

  /**
   * What `process_arr` finds for an ARR reference, with the DF's rules: a
   * long reference is not handled; a one-byte one names the EF_Rule record
   * whose objects are interpreted.
   */
  function AclOf(dfs: seq<DfInfo>, curpath: seq<u16>, ref: Option<seq<byte>>): (acl: AclResult)
    ensures ref.None? <==> acl == NoArr
    ensures acl.LongArrUnsupported? <==> ref.Some? && |ref.value| != 1
    ensures acl.LongArrUnsupported? ==> acl.reference == ref.value
    ensures ref.Some? && |ref.value| == 1 ==>
              var rules := CurrentRules(dfs, curpath);
              match FindRule(rules, ref.value[0])
              case None => acl == RuleNotFound(ref.value[0])
              case Some(i) => acl == RuleObjects(ref.value[0], ArrItems(rules[i].data, true))
  {
    match ref
    case None => NoArr
    case Some(v) =>
      if |v| != 1 then LongArrUnsupported(v)
      else
        var rules := CurrentRules(dfs, curpath);
        match FindRule(rules, v[0])
        case None => RuleNotFound(v[0])
        case Some(i) => RuleObjects(v[0], ArrItems(rules[i].data, true))
  }

  /** The file a SELECT hands back: a fresh file, filled in from the FCP when one was received in full. */
  function FileOf(fci: FciBody): FileInfo {
    if fci.FcpBytes? then DecodeInto(Blank, fci.fcp) else Blank
  }

  // ---------------------------------------------------------------- load_special_files

  /** How loading ended, the DF list after it, and the commands it sent. */
  datatype Loading = Loading(outcome: Outcome, dfInfos: seq<DfInfo>, sent: seq<Command>)

  /** The list with the entry for `path` (created if need be) holding exactly the given records. */
  function Stored(dfs: seq<DfInfo>, path: seq<u16>, rules: seq<Record>, keyd: seq<Record>): seq<DfInfo> {
    var d := WithEntry(dfs, path);
    d[IndexOfPath(d, path).value := DfInfo(path, rules, keyd)]
  }

  /**
   * `load_special_files` for the current path: nothing when EF_Rule records
   * are already cached for it; otherwise its entry is emptied and refilled
   * with what `Store.Load` reads.
   */
  function LoadSpecial(o: Oracle, log: seq<Command>, curpath: seq<u16>, dfs: seq<DfInfo>): Loading
    requires curpath != []
  {
    if RulesOf(dfs, curpath) != [] then Loading(Success, dfs, [])
    else
      var l := Load(o, log);
      Loading(l.outcome, Stored(dfs, curpath, l.rules, l.keyd), l.sent)
  }

  /** Replacing an entry by one with the same path does not move any path's first match. */
  lemma {:induction false} IndexOfPathUpdate(d: seq<DfInfo>, j: nat, e: DfInfo, p: seq<u16>)
    requires j < |d| && d[j].path == e.path
    ensures IndexOfPath(d[j := e], p) == IndexOfPath(d, p)
  {
    if j > 0 {
      assert d[j := e][1..] == d[1..][j - 1 := e];
      IndexOfPathUpdate(d[1..], j - 1, e, p);
    }
  }

  /** After storing, the DF holds exactly the stored records, and every other DF what it held before. */
  lemma StoredLists(dfs: seq<DfInfo>, path: seq<u16>, rules: seq<Record>, keyd: seq<Record>, p: seq<u16>)
    ensures RulesOf(Stored(dfs, path, rules, keyd), p) == if p == path then rules else RulesOf(dfs, p)
    ensures KeyDOf(Stored(dfs, path, rules, keyd), p) == if p == path then keyd else KeyDOf(dfs, p)
  {
    var d := WithEntry(dfs, path);
    var j := IndexOfPath(d, path).value;
    IndexOfPathUpdate(d, j, DfInfo(path, rules, keyd), p);
    WithEntryKeepsLists(dfs, path, p);
  }

  lemma StoredKeepsWellFormed(dfs: seq<DfInfo>, path: seq<u16>, rules: seq<Record>, keyd: seq<Record>)
    requires WellFormed(dfs) && 1 <= |path| <= MaxCurPath
    ensures WellFormed(Stored(dfs, path, rules, keyd))
  {
    WithEntryKeepsWellFormed(dfs, path);
    var d := WithEntry(dfs, path);
    var j := IndexOfPath(d, path).value;
    var d' := d[j := DfInfo(path, rules, keyd)];
    assert forall i :: 0 <= i < |d'| ==> d'[i].path == d[i].path;
  }

  /** A DF whose EF_Rule records are cached is not read again: no command, no change. */
  lemma LoadSpecialCached(o: Oracle, log: seq<Command>, curpath: seq<u16>, dfs: seq<DfInfo>)
    requires curpath != [] && RulesOf(dfs, curpath) != []
    ensures LoadSpecial(o, log, curpath, dfs) == Loading(Success, dfs, [])
  {
  }

  /**
   * Otherwise the DF's entry ends up holding what was read (partial lists
   * when the load aborted), no other DF's cache changes, and the commands
   * are those of the load.
   */
  lemma LoadSpecialRefills(o: Oracle, log: seq<Command>, curpath: seq<u16>, dfs: seq<DfInfo>, p: seq<u16>)
    requires curpath != [] && RulesOf(dfs, curpath) == []
    ensures var l := LoadSpecial(o, log, curpath, dfs);
            var ld := Load(o, log);
            l.outcome == ld.outcome && l.sent == ld.sent
            && RulesOf(l.dfInfos, p) == (if p == curpath then ld.rules else RulesOf(dfs, p))
            && KeyDOf(l.dfInfos, p) == (if p == curpath then ld.keyd else KeyDOf(dfs, p))
  {
    var ld := Load(o, log);
    StoredLists(dfs, curpath, ld.rules, ld.keyd, p);
  }

  lemma LoadSpecialKeepsWellFormed(o: Oracle, log: seq<Command>, curpath: seq<u16>, dfs: seq<DfInfo>)
    requires 1 <= |curpath| <= MaxCurPath && WellFormed(dfs)
    ensures WellFormed(LoadSpecial(o, log, curpath, dfs).dfInfos)
  {
    if RulesOf(dfs, curpath) == [] {
      var l := Load(o, log);
      StoredKeepsWellFormed(dfs, curpath, l.rules, l.keyd);
    }
  }

  // ---------------------------------------------------------------- selection

  /** How a selection ended, the private data after it, the commands sent, and the FCI of the file handed back. */
  datatype Selected = Selected(outcome: Outcome, state: State, sent: seq<Command>, fci: FciBody)

  /**
   * `select_down`: descend along `path` from the cached path, appending each
   * component selected; on success the EF flag is what the descent found,
   * and a DF target gets its special files loaded.
   */
  function Down(o: Oracle, log: seq<Command>, s: State, path: seq<u16>, dfOnly: bool, wantFci: bool): (r: Selected)
    ensures path == [] ==> r == Selected(Failure(InvalidArguments), s, [], NoFci)
    ensures path != [] ==>
              var d := Descend(o, log, path, dfOnly, wantFci, |s.curpath|);
              r.outcome == d.outcome && r.fci == d.fci
              && r.state.curpath == s.curpath + path[..d.selected]
              && |d.sent| <= |r.sent| && r.sent[..|d.sent|] == d.sent
              && r.state.isEf == (if d.outcome.Success? then d.foundEf else s.isEf)
  {
    if path == [] then Selected(Failure(InvalidArguments), s, [], NoFci)
    else
      var d := Descend(o, log, path, dfOnly, wantFci, |s.curpath|);
      var cur := s.curpath + path[..d.selected];
      if d.outcome.Failure? then Selected(d.outcome, State(cur, s.isEf, s.dfInfos), d.sent, d.fci)
      else
        // The FCI came from the SELECT of the last component, made from one level up.
        var dfs := FcpTouch(s.dfInfos, s.curpath + path[..|path| - 1], d.fci);
        if d.foundEf then Selected(Success, State(cur, true, dfs), d.sent, d.fci)
        else
          var l := LoadSpecial(o, log + d.sent, cur, dfs);
          assert (d.sent + l.sent)[..|d.sent|] == d.sent;
          Selected(Success, State(cur, false, l.dfInfos), d.sent + l.sent, d.fci)
  }

  /**
   * The MF (or, from an empty cache, the first component of a relative
   * path) selected as MF: the cache is emptied first, and holds just `fid`
   * afterwards when the card accepts. No special files are loaded.
   */
  function SelectMf(o: Oracle, log: seq<Command>, s: State, fid: u16, wantFci: bool): (r: Selected)
    ensures r.sent == [Select(SelMf, FidBytes(fid), wantFci)] && r.state.dfInfos == s.dfInfos
    ensures r.outcome.Success? ==> r.state.curpath == [fid] && !r.state.isEf
    ensures r.outcome.Failure? ==> r.state == State([], s.isEf, s.dfInfos) && r.fci == NoFci
  {
    var cmd := PartCommand(SelMf, fid, wantFci);
    var a := SelectAnswer(o(log, cmd), wantFci);
    // The FCP is decoded with an empty cache, so no DF entry is looked up.
    if a.Rejected? then Selected(Failure(a.error), State([], s.isEf, s.dfInfos), [cmd], NoFci)
    else Selected(Success, State([fid], false, s.dfInfos), [cmd], a.fci)
  }

  /**
   * Relative addressing: from an empty cache select the first component as
   * the MF and cache it; step up from an EF; then descend along the whole path.
   */
  function Relative(o: Oracle, log: seq<Command>, s: State, path: seq<u16>, wantFci: bool): (r: Selected)
    requires path != []
    ensures r.sent == [] ==> r.outcome.Success? || r.outcome == Failure(Internal)
  {
    if s.curpath == [] then
      var m := SelectMf(o, log, s, path[0], wantFci);
      if m.outcome.Failure? then m
      else
        var d := Down(o, log + m.sent, m.state, path, false, wantFci);
        Selected(d.outcome, d.state, m.sent + d.sent, if d.fci.NoFci? then m.fci else d.fci)
    else
      var s1 := if s.isEf then State(s.curpath[..|s.curpath| - 1], false, s.dfInfos) else s;
      Down(o, log, s1, path, false, wantFci)
  }

  /** `select_file_by_path`. */
  function ByPath(o: Oracle, log: seq<Command>, s: State, path: seq<u16>, wantFci: bool): (r: Selected)
    ensures var p := StripCurrentDf(path);
            p == [] || |p| >= MaxCurPath <==> r.outcome == Failure(InvalidArguments) && r.sent == [] && r.state == s
  {
    var p := StripCurrentDf(path);
    if p == [] || |p| >= MaxCurPath then Selected(Failure(InvalidArguments), s, [], NoFci)
    else if |p| == 1 && p[0] == Mfid then SelectMf(o, log, s, Mfid, wantFci)
    else if p[0] == Mfid then Absolute(o, log, s, p, wantFci)
    else Relative(o, log, s, p, wantFci)
  }

  /**
   * Absolute addressing of a path below the MF, using the cached path to
   * avoid selects: nothing when the path is already selected and no FCI is
   * wanted; otherwise the descent starts at the root, or one level up to
   * fetch the FCI of the file already selected.
   */
  function Absolute(o: Oracle, log: seq<Command>, s: State, p: seq<u16>, wantFci: bool): (r: Selected)
    requires p != []
    ensures r.sent == [] ==> r.outcome.Success? || r.outcome == Failure(Internal)
  {
    var i := CommonPrefix(p, s.curpath);
    var root := State([], false, s.dfInfos);
    if s.curpath == [] then Down(o, log, root, p, false, wantFci)
    // Going up: the target is a DF, and the descent starts at the root.
    else if i == |p| && i < |s.curpath| then Down(o, log, root, p, true, wantFci)
    else if i == |p| && i == |s.curpath| then
      if !wantFci then Selected(Success, s, [], NoFci)
      // Already selected, but the FCI is wanted: select the last component again.
      else Down(o, log, State(s.curpath[..|s.curpath| - 1], false, s.dfInfos), [p[|p| - 1]], false, wantFci)
    else Down(o, log, root, p, false, wantFci)
  }

  /**
   * `select_file_by_fid`, where `unsetFid` stands for the identifier the
   * request's uninitialised path buffer holds when the request is empty.
   */
  function ByFid(o: Oracle, log: seq<Command>, s: State, path: seq<u16>, wantFci: bool, unsetFid: u16): (r: Selected)
    ensures |path| > 1 ==> r == Selected(Failure(InvalidArguments), s, [], NoFci)
    ensures path == [CurrentDf] ==> r == Selected(Success, s, [], NoFci)
    ensures path == [] && !wantFci ==> r == Selected(Success, s, [], NoFci)
    ensures path == [] && wantFci && s.curpath == [] ==> r.outcome == Failure(Internal) && r.sent == []
  {
    if |path| > 1 then Selected(Failure(InvalidArguments), s, [], NoFci)
    else if path == [] then
      if !wantFci then Selected(Success, s, [], NoFci)
      else if s.curpath == [] then Selected(Failure(Internal), s, [], NoFci)
      else Down(o, log, State(s.curpath[..|s.curpath| - 1], false, s.dfInfos), [unsetFid], false, wantFci)
    else if path[0] == CurrentDf then Selected(Success, s, [], NoFci)
    else if path[0] == Mfid then SelectMf(o, log, s, Mfid, wantFci)
    else Relative(o, log, s, path, wantFci)
  }

  /** The path types of a request; any type other than a DF name or a path is handled as a file identifier. */
  datatype PathType = FileId | DfName | PathType | OtherType(code: int)

  /** Longest DF name (AID) the driver accepts. */
  const MaxAidBytes: nat := 16

  /**
   * `mcrd_select_file`: a DF name is selected directly and empties the
   * cache whatever the card answers; path bytes are checked and decoded
   * into file identifiers first.
   */
  function SelectFile(o: Oracle, log: seq<Command>, s: State, pathType: PathType, value: seq<byte>, wantFci: bool, unsetFid: u16): (r: Selected)
    ensures pathType == DfName && |value| > MaxAidBytes ==> r == Selected(Failure(InvalidArguments), s, [], NoFci)
    ensures pathType == DfName && |value| <= MaxAidBytes ==>
              r.sent == [Select(SelAid, value, wantFci)] && r.state.curpath == [] && r.state.isEf == s.isEf
    ensures pathType != DfName && (|value| % 2 == 1 || |value| > MaxPathBytes) ==>
              r == Selected(Failure(InvalidArguments), s, [], NoFci)
  {
    if pathType == DfName then
      if |value| > MaxAidBytes then Selected(Failure(InvalidArguments), s, [], NoFci)
      else
        var cmd := Select(SelAid, value, wantFci);
        var a := SelectAnswer(o(log, cmd), wantFci);
        if a.Rejected? then Selected(Failure(a.error), State([], s.isEf, s.dfInfos), [cmd], NoFci)
        else Selected(Success, State([], s.isEf, FcpTouch(s.dfInfos, s.curpath, a.fci)), [cmd], a.fci)
    else match PathOfBytes(value)
      case Err(e) => Selected(Failure(e), s, [], NoFci)
      case Ok(fids) =>
        if pathType == PathType then ByPath(o, log, s, fids, wantFci) else ByFid(o, log, s, fids, wantFci, unsetFid)
  }

  // ---------------------------------------------------------------- what selection guarantees

  /** `select_down` keeps the private data valid. */
  lemma DownKeepsValid(o: Oracle, log: seq<Command>, s: State, path: seq<u16>, dfOnly: bool, wantFci: bool)
    requires Valid(s)
    ensures Valid(Down(o, log, s, path, dfOnly, wantFci).state)
  {
    if path != [] {
      var d := Descend(o, log, path, dfOnly, wantFci, |s.curpath|);
      DescendBounds(o, log, path, dfOnly, wantFci, |s.curpath|);
      if d.outcome.Success? {
        var up := s.curpath + path[..|path| - 1];
        TouchedKeepsWellFormed(s.dfInfos, up);
        var dfs := FcpTouch(s.dfInfos, up, d.fci);
        if !d.foundEf {
          LoadSpecialKeepsWellFormed(o, log + d.sent, s.curpath + path[..d.selected], dfs);
        }
      }
    }
  }

  lemma RelativeKeepsValid(o: Oracle, log: seq<Command>, s: State, path: seq<u16>, wantFci: bool)
    requires Valid(s) && path != []
    ensures Valid(Relative(o, log, s, path, wantFci).state)
  {
    if s.curpath == [] {
      var m := SelectMf(o, log, s, path[0], wantFci);
      if m.outcome.Success? {
        DownKeepsValid(o, log + m.sent, m.state, path, false, wantFci);
      }
    } else {
      var s1 := if s.isEf then State(s.curpath[..|s.curpath| - 1], false, s.dfInfos) else s;
      DownKeepsValid(o, log, s1, path, false, wantFci);
    }
  }

  lemma AbsoluteKeepsValid(o: Oracle, log: seq<Command>, s: State, p: seq<u16>, wantFci: bool)
    requires Valid(s) && p != [] && |p| < MaxCurPath
    ensures Valid(Absolute(o, log, s, p, wantFci).state)
  {
    var i := CommonPrefix(p, s.curpath);
    var root := State([], false, s.dfInfos);
    if s.curpath == [] || !(i == |p| && i <= |s.curpath|) {
      DownKeepsValid(o, log, root, p, false, wantFci);
    } else if i < |s.curpath| {
      DownKeepsValid(o, log, root, p, true, wantFci);
    } else if wantFci {
      DownKeepsValid(o, log, State(s.curpath[..|s.curpath| - 1], false, s.dfInfos), [p[|p| - 1]], false, wantFci);
    }
  }

  lemma ByPathKeepsValid(o: Oracle, log: seq<Command>, s: State, path: seq<u16>, wantFci: bool)
    requires Valid(s)
    ensures Valid(ByPath(o, log, s, path, wantFci).state)
  {
    var p := StripCurrentDf(path);
    if p != [] && |p| < MaxCurPath && !(|p| == 1 && p[0] == Mfid) {
      if p[0] == Mfid {
        AbsoluteKeepsValid(o, log, s, p, wantFci);
      } else {
        RelativeKeepsValid(o, log, s, p, wantFci);
      }
    }
  }

  lemma ByFidKeepsValid(o: Oracle, log: seq<Command>, s: State, path: seq<u16>, wantFci: bool, unsetFid: u16)
    requires Valid(s)
    ensures Valid(ByFid(o, log, s, path, wantFci, unsetFid).state)
  {
    if path == [] && wantFci && s.curpath != [] {
      DownKeepsValid(o, log, State(s.curpath[..|s.curpath| - 1], false, s.dfInfos), [unsetFid], false, wantFci);
    } else if |path| == 1 && path[0] != CurrentDf && path[0] != Mfid {
      RelativeKeepsValid(o, log, s, path, wantFci);
    }
  }

  /** The dispatch of `mcrd_select_file` on the path type, once the path bytes are decoded. */
  lemma SelectFileDispatch(o: Oracle, log: seq<Command>, s: State, pathType: PathType, value: seq<byte>, wantFci: bool, unsetFid: u16)
    requires pathType != DfName && PathOfBytes(value).Ok?
    ensures var fids := PathOfBytes(value).value;
            SelectFile(o, log, s, pathType, value, wantFci, unsetFid)
            == if pathType == PathType then ByPath(o, log, s, fids, wantFci) else ByFid(o, log, s, fids, wantFci, unsetFid)
  {
  }

  /** Selection keeps the private data valid: the cached path fits, and there is one entry per DF path. */
  lemma SelectFileKeepsValid(o: Oracle, log: seq<Command>, s: State, pathType: PathType, value: seq<byte>, wantFci: bool, unsetFid: u16)
    requires Valid(s)
    ensures Valid(SelectFile(o, log, s, pathType, value, wantFci, unsetFid).state)
  {
    if pathType == DfName {
      TouchedKeepsWellFormed(s.dfInfos, s.curpath);
    } else if PathOfBytes(value).Ok? {
      SelectFileDispatch(o, log, s, pathType, value, wantFci, unsetFid);
      if pathType == PathType {
        ByPathKeepsValid(o, log, s, PathOfBytes(value).value, wantFci);
      } else {
        ByFidKeepsValid(o, log, s, PathOfBytes(value).value, wantFci, unsetFid);
      }
    }
  }

  /** Asking for the MF by path (with or without a leading 3FFF) sends one MF select and loads nothing. */
  lemma MfRequestSelectsMfOnly(o: Oracle, log: seq<Command>, s: State, path: seq<u16>, wantFci: bool)
    requires path == [Mfid] || path == [CurrentDf, Mfid]
    ensures var r := ByPath(o, log, s, path, wantFci);
            r.sent == [Select(SelMf, [0x3F, 0x00], wantFci)] && r.state.dfInfos == s.dfInfos
            && (r.outcome.Success? ==> r.state.curpath == [Mfid] && !r.state.isEf)
            && (r.outcome.Failure? ==> r.state.curpath == [])
  {
    assert StripCurrentDf(path) == [Mfid];
  }

  /** A held path whose FCI is not wanted is not selected again: no command, nothing changes. */
  lemma AlreadySelectedSendsNothing(o: Oracle, log: seq<Command>, s: State, p: seq<u16>)
    requires 1 < |p| < MaxCurPath && p[0] == Mfid && s.curpath == p
    ensures ByPath(o, log, s, p, false) == Selected(Success, s, [], NoFci)
  {
    assert CommonPrefix(p, p) == |p|;
  }

  /**
   * A held path whose FCI is wanted: the last component is selected again,
   * as an EF first, from one level up, and the cache ends on the same path.
   */
  lemma AlreadySelectedReselectsLast(o: Oracle, log: seq<Command>, s: State, p: seq<u16>)
    requires 1 < |p| < MaxCurPath && p[0] == Mfid && s.curpath == p
    ensures var r := ByPath(o, log, s, p, true);
            |r.sent| > 0 && r.sent[0] == PartCommand(SelEf, p[|p| - 1], true)
            && (r.outcome.Success? ==> r.state.curpath == p)
  {
    assert CommonPrefix(p, p) == |p|;
    var s1 := State(p[..|p| - 1], false, s.dfInfos);
    var d := Descend(o, log, [p[|p| - 1]], false, true, |p| - 1);
    assert d == Leaf(o, log, p[|p| - 1], true);
    assert p[..|p| - 1] + [p[|p| - 1]] == p;
  }

  /**
   * Going up to a DF on the cached path: the descent starts at the root
   * with DF selects only, and the cache never ends on an EF.
   */
  lemma GoingUpSelectsOnlyDfs(o: Oracle, log: seq<Command>, s: State, p: seq<u16>, wantFci: bool)
    requires 1 < |p| < MaxCurPath && p[0] == Mfid && |p| < |s.curpath| && s.curpath[..|p|] == p
    ensures var r := ByPath(o, log, s, p, wantFci);
            var d := Descend(o, log, p, true, wantFci, 0);
            |d.sent| <= |r.sent| && r.sent[..|d.sent|] == d.sent && OnlyDfSelects(d.sent) && !r.state.isEf
            && (r.outcome.Success? ==> r.state.curpath == p)
  {
    assert p[..|p|] == p;
    CommonPrefixUnique(p, s.curpath, |p|);
    assert ByPath(o, log, s, p, wantFci) == Down(o, log, State([], false, s.dfInfos), p, true, wantFci);
    DescendDfOnly(o, log, p, wantFci, 0);
    DescendBounds(o, log, p, true, wantFci, 0);
  }

  /** An absolute path selected successfully is what the cache holds afterwards, whichever branch was taken. */
  lemma AbsoluteEndsOnRequest(o: Oracle, log: seq<Command>, s: State, p: seq<u16>, wantFci: bool)
    requires 1 < |p| < MaxCurPath && p[0] == Mfid
    ensures var r := ByPath(o, log, s, p, wantFci);
            r.outcome.Success? ==> r.state.curpath == p
  {
    var i := CommonPrefix(p, s.curpath);
    CommonPrefixUnique(p, s.curpath, i);
    assert p[..|p|] == p;
    if s.curpath != [] && i == |p| && i == |s.curpath| && wantFci {
      assert s.curpath == p;
      assert p[..|p| - 1] + [p[|p| - 1]] == p;
    }
  }

  /**
   * Selecting the same absolute path twice without asking for the FCI: the
   * second request sends nothing and changes nothing.
   */
  lemma AbsoluteSelectIdempotent(o: Oracle, log: seq<Command>, s: State, p: seq<u16>)
    requires 1 < |p| < MaxCurPath && p[0] == Mfid
    ensures var r := ByPath(o, log, s, p, false);
            r.outcome.Success? ==> ByPath(o, log + r.sent, r.state, p, false) == Selected(Success, r.state, [], NoFci)
  {
    var r := ByPath(o, log, s, p, false);
    AbsoluteEndsOnRequest(o, log, s, p, false);
    if r.outcome.Success? {
      AlreadySelectedSendsNothing(o, log + r.sent, r.state, p);
    }
  }

  /** A leading 3FFF is dropped: the request is the same as without it. */
  lemma CurrentDfPrefixIgnored(o: Oracle, log: seq<Command>, s: State, p: seq<u16>, wantFci: bool)
    requires p == [] || p[0] != CurrentDf
    ensures ByPath(o, log, s, [CurrentDf] + p, wantFci) == ByPath(o, log, s, p, wantFci)
  {
    assert ([CurrentDf] + p)[1..] == p;
  }

  /**
   * Relative addressing from an empty cache selects the first component as
   * the MF, caches it, and then selects it again below itself: a card that
   * accepts both leaves the cache holding the identifier twice.
   */
  lemma RelativeFromEmptyCachesFidTwice(o: Oracle, log: seq<Command>, s: State, fid: u16, wantFci: bool, unsetFid: u16)
    requires s.curpath == [] && fid != Mfid && fid != CurrentDf
    requires SelectAnswer(o(log, Select(SelMf, FidBytes(fid), wantFci)), wantFci).Accepted?
    requires Accepts(o, log + [Select(SelMf, FidBytes(fid), wantFci)], PartCommand(SelEf, fid, wantFci))
    ensures var r := ByFid(o, log, s, [fid], wantFci, unsetFid);
            r.outcome.Success? && r.state.curpath == [fid, fid] && r.state.isEf
  {
    var m := SelectMf(o, log, s, fid, wantFci);
    assert m.state.curpath == [fid];
    var d := Descend(o, log + m.sent, [fid], false, wantFci, 1);
    assert d == Leaf(o, log + m.sent, fid, wantFci);
  }

  /**
   * An empty file-identifier request that wants the FCI selects, one level
   * up, whatever identifier the unused request buffer holds.
   */
  lemma EmptyFileIdSelectsUnsetFid(o: Oracle, log: seq<Command>, s: State, unsetFid: u16)
    requires s.curpath != [] && |s.curpath| <= MaxCurPath
    ensures var r := ByFid(o, log, s, [], true, unsetFid);
            |r.sent| > 0 && r.sent[0] == PartCommand(SelEf, unsetFid, true)
  {
    var d := Descend(o, log, [unsetFid], false, true, |s.curpath| - 1);
    assert d == Leaf(o, log, unsetFid, true);
  }

  /**
   * From an empty cache, an absolute path the card accepts all the way to an
   * EF is selected with one SELECT per component (DF selects, then an EF
   * select), and the cache ends on that path with the EF flag set.
   */
  lemma AbsolutePathToEf(o: Oracle, log: seq<Command>, s: State, p: seq<u16>, wantFci: bool)
    requires 1 < |p| < MaxCurPath && p[0] == Mfid && s.curpath == []
    requires AllAccepted(o, log, DescentToEf(p, wantFci))
    ensures var r := ByPath(o, log, s, p, wantFci);
            r.outcome.Success? && r.sent == DescentToEf(p, wantFci) && r.state.curpath == p && r.state.isEf
  {
    DescendReachesEf(o, log, p, wantFci, 0);
    assert p[..|p|] == p;
  }

  /** 3F00/4100/4101 from an empty cache: MF, DF and EF selects, in that order. */
  lemma ExamplePath(o: Oracle, log: seq<Command>, s: State, wantFci: bool)
    requires s.curpath == []
    requires AllAccepted(o, log, [Select(SelMf, [0x3F, 0x00], false), Select(SelDf, [0x41, 0x00], false),
                                  Select(SelEf, [0x41, 0x01], wantFci)])
    ensures var r := ByPath(o, log, s, [0x3F00, 0x4100, 0x4101], wantFci);
            r.outcome.Success? && r.state.curpath == [0x3F00, 0x4100, 0x4101] && r.state.isEf
            && r.sent == [Select(SelMf, [0x3F, 0x00], false), Select(SelDf, [0x41, 0x00], false),
                          Select(SelEf, [0x41, 0x01], wantFci)]
  {
    var p: seq<u16> := [0x3F00, 0x4100, 0x4101];
    assert p[1..] == [0x4100, 0x4101] && p[1..][1..] == [0x4101];
    SplitJoin(0x3F, 0x00);
    SplitJoin(0x41, 0x00);
    SplitJoin(0x41, 0x01);
    assert DescentToEf([0x4101], wantFci) == [Select(SelEf, [0x41, 0x01], wantFci)];
    assert DescentToEf([0x4100, 0x4101], wantFci) == [Select(SelDf, [0x41, 0x00], false), Select(SelEf, [0x41, 0x01], wantFci)];
    assert DescentToEf(p, wantFci) == [Select(SelMf, [0x3F, 0x00], false), Select(SelDf, [0x41, 0x00], false),
                                       Select(SelEf, [0x41, 0x01], wantFci)];
    AbsolutePathToEf(o, log, s, p, wantFci);
  }

  /** A descent that fails, ends on an EF, or ends on a DF whose rules are cached sends no more and changes no cached list. */
  lemma DownWithoutLoad(o: Oracle, log: seq<Command>, s: State, path: seq<u16>, dfOnly: bool, wantFci: bool, q: seq<u16>)
    requires path != []
    requires var d := Descend(o, log, path, dfOnly, wantFci, |s.curpath|);
             d.outcome.Failure? || d.foundEf || RulesOf(s.dfInfos, s.curpath + path) != []
    ensures var r := Down(o, log, s, path, dfOnly, wantFci);
            r.sent == Descend(o, log, path, dfOnly, wantFci, |s.curpath|).sent
            && RulesOf(r.state.dfInfos, q) == RulesOf(s.dfInfos, q) && KeyDOf(r.state.dfInfos, q) == KeyDOf(s.dfInfos, q)
  {
    var d := Descend(o, log, path, dfOnly, wantFci, |s.curpath|);
    if d.outcome.Success? {
      var up := s.curpath + path[..|path| - 1];
      var cur := s.curpath + path;
      assert path[..d.selected] == path;
      var dfs := FcpTouch(s.dfInfos, up, d.fci);
      FcpTouchKeepsLists(s.dfInfos, up, d.fci, q);
      if !d.foundEf {
        FcpTouchKeepsLists(s.dfInfos, up, d.fci, cur);
        LoadSpecialCached(o, log + d.sent, cur, dfs);
        assert Down(o, log, s, path, dfOnly, wantFci) == Selected(Success, State(cur, false, dfs), d.sent + [], d.fci);
      }
    }
  }

  /** A descent that ends on a DF whose rules are not cached loads that DF's EF_Rule and EF_KeyD. */
  lemma DownLoadsDf(o: Oracle, log: seq<Command>, s: State, path: seq<u16>, dfOnly: bool, wantFci: bool)
    requires path != []
    requires var d := Descend(o, log, path, dfOnly, wantFci, |s.curpath|);
             d.outcome.Success? && !d.foundEf && RulesOf(s.dfInfos, s.curpath + path) == []
    ensures var r := Down(o, log, s, path, dfOnly, wantFci);
            var d := Descend(o, log, path, dfOnly, wantFci, |s.curpath|);
            var l := Load(o, log + d.sent);
            r.sent == d.sent + l.sent
            && RulesOf(r.state.dfInfos, s.curpath + path) == l.rules && KeyDOf(r.state.dfInfos, s.curpath + path) == l.keyd
  {
    var d := Descend(o, log, path, dfOnly, wantFci, |s.curpath|);
    var up := s.curpath + path[..|path| - 1];
    var cur := s.curpath + path;
    assert path[..d.selected] == path;
    FcpTouchKeepsLists(s.dfInfos, up, d.fci, cur);
    LoadSpecialRefills(o, log + d.sent, cur, FcpTouch(s.dfInfos, up, d.fci), cur);
  }
}
