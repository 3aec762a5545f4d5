/**
 * The key-reference lookup of `get_se_num_from_keyd`: a first-match search
 * over the cached EF_KeyD records for the record that describes a key file,
 * giving that key's security environment (SE) number and its reference data.
 */
module KeyD {
  import opened Wrappers
  import opened Bytes
  import opened Tlv
  import opened Store

  /** The SE number found (-1 for none), and the reference data bytes last written. */
  datatype SeLookup = SeLookup(num: int, refData: Option<(byte, byte)>)

  /** The record's `83` object is four bytes long and its last two are the file identifier. */
  predicate NamesFid(data: seq<byte>, fid: u16) {
    var t := FindTag(data, 0x83);
    t.Some? && |t.value| == 4 && t.value[2] == Hi(fid) && t.value[3] == Lo(fid)
  }

  /** The first two bytes of the `83` object: the key's reference data. */
  function RefOf(data: seq<byte>, fid: u16): (byte, byte)
    requires NamesFid(data, fid)
  {
    var t := FindTag(data, 0x83).value;
    (t[0], t[1])
  }

  /** The byte of a one-byte `80` object inside a non-empty `7B` (SE data object). */
  function SeNumber(data: seq<byte>): Option<byte> {
    match FindTag(data, 0x7B)
    case None => None
    case Some(se) =>
      if se == [] then None
      else match FindTag(se, 0x80)
        case None => None
        case Some(v) => if |v| == 1 then Some(v[0]) else None
  }

  /** A record that settles the lookup: it names the file and carries an SE number. */
  predicate Settles(data: seq<byte>, fid: u16) {
    NamesFid(data, fid) && SeNumber(data).Some?
  }

  /** The position of the first record that settles the lookup. */
  function FirstSettling(records: seq<Record>, fid: u16): (r: Option<nat>)
    ensures r.Some? ==> r.value < |records| && Settles(records[r.value].data, fid)
    ensures r.Some? ==> forall j :: 0 <= j < r.value ==> !Settles(records[j].data, fid)
    ensures r.None? <==> forall j :: 0 <= j < |records| ==> !Settles(records[j].data, fid)
  {
    if records == [] then None
    else if Settles(records[0].data, fid) then Some(0)
    else match FirstSettling(records[1..], fid)
      case None => None
      case Some(k) => Some(k + 1)
  }

  /**
   * The loop over the records, newest first, with `written` the reference
   * data written so far. A record naming the file writes its reference data
   * at once; if it lacks an SE number the search goes on.
   */
  function SeNumFromRecords(records: seq<Record>, fid: u16, written: Option<(byte, byte)>): (r: SeLookup)
    ensures -1 <= r.num < 0x100
    ensures r.num != -1 ==> r.refData.Some?
  {
    if records == [] then SeLookup(-1, written)
    else
      var data := records[0].data;
      var written' := if NamesFid(data, fid) then Some(RefOf(data, fid)) else written;
      if Settles(data, fid) then SeLookup(SeNumber(data).value, written')
      else SeNumFromRecords(records[1..], fid, written')
  }

  /**
   * The lookup finds the first record that settles it, and gives that
   * record's SE number and reference data; when none does, the result is -1
   * and the reference data is the one passed in unless some record named
   * the file.
   */
  lemma {:induction false} SeNumFromRecordsFinds(records: seq<Record>, fid: u16, written: Option<(byte, byte)>)
    ensures var r := SeNumFromRecords(records, fid, written);
            (r.num == -1 <==> FirstSettling(records, fid).None?)
            && (FirstSettling(records, fid).Some? ==>
                  var i := FirstSettling(records, fid).value;
                  r.num == SeNumber(records[i].data).value && r.refData == Some(RefOf(records[i].data, fid)))
            && (r.num == -1 && r.refData != written ==> exists i :: 0 <= i < |records| && NamesFid(records[i].data, fid))
  {
    if records != [] {
      var data := records[0].data;
      var written' := if NamesFid(data, fid) then Some(RefOf(data, fid)) else written;
      if !Settles(data, fid) {
        SeNumFromRecordsFinds(records[1..], fid, written');
        assert forall i :: 1 <= i < |records| ==> records[i] == records[1..][i - 1];
        var r := SeNumFromRecords(records[1..], fid, written');
        if r.num == -1 && r.refData != written && r.refData == written' {
          assert NamesFid(records[0].data, fid);
        }
      }
    }
  }

  // ---------------------------------------------------------------- the lookup, one record at a time

  /**
   * Names the rest of a lookup. It holds of every lookup; a proof mentions
   * it to use `LookupSoFar`, which keeps the solver from unfolding the rest
   * of the lookup wherever the loop invariant is in scope.
   */
  predicate Pending(l: SeLookup) { true }

  /** The loop invariant of `get_se_num_from_keyd`: the whole lookup is the lookup of `records[i..]` from `written`. */
  ghost predicate LookupSoFar(whole: SeLookup, records: seq<Record>, fid: u16, i: nat, written: Option<(byte, byte)>)
    requires i <= |records|
  {
    forall l {:trigger Pending(l)} :: l == SeNumFromRecords(records[i..], fid, written) ==> whole == l
  }

  lemma LookupSoFarStart(records: seq<Record>, fid: u16)
    ensures LookupSoFar(SeNumFromRecords(records, fid, None), records, fid, 0, None)
  {
    assert records[0..] == records;
  }

  /** A record that does not settle the lookup: on to the next one, with its reference data written if it names the file. */
  lemma LookupSoFarNext(whole: SeLookup, records: seq<Record>, fid: u16, i: nat, written: Option<(byte, byte)>)
    requires i < |records| && !Settles(records[i].data, fid)
    requires LookupSoFar(whole, records, fid, i, written)
    ensures var data := records[i].data;
            LookupSoFar(whole, records, fid, i + 1, if NamesFid(data, fid) then Some(RefOf(data, fid)) else written)
  {
    assert records[i..][0] == records[i] && records[i..][1..] == records[i + 1..];
    assert Pending(SeNumFromRecords(records[i..], fid, written));
  }

  /** A record that settles the lookup ends it with its SE number and its reference data. */
  lemma LookupSoFarFound(whole: SeLookup, records: seq<Record>, fid: u16, i: nat, written: Option<(byte, byte)>)
    requires i < |records| && Settles(records[i].data, fid)
    requires LookupSoFar(whole, records, fid, i, written)
    ensures whole == SeLookup(SeNumber(records[i].data).value, Some(RefOf(records[i].data, fid)))
  {
    assert records[i..][0] == records[i];
    assert Pending(SeNumFromRecords(records[i..], fid, written));
  }

  /** Past the last record, nothing was found, and the reference data is what was last written. */
  lemma LookupSoFarEnd(whole: SeLookup, records: seq<Record>, fid: u16, written: Option<(byte, byte)>)
    requires LookupSoFar(whole, records, fid, |records|, written)
    ensures whole == SeLookup(-1, written)
  {
    assert records[|records|..] == [];
    assert Pending(SeNumFromRecords(records[|records|..], fid, written));
  }

  /**
   * The record loop of `get_se_num_from_keyd`: records that do not name
   * `fid` are skipped; one that names it writes its reference data and ends
   * the search if it carries an SE number.
   */
  method LookupKeyD(keyd: seq<Record>, fid: u16) returns (num: int, refData: Option<(byte, byte)>)
    ensures SeLookup(num, refData) == SeNumFromRecords(keyd, fid, None)
  {
    ghost var whole := SeNumFromRecords(keyd, fid, None);
    LookupSoFarStart(keyd, fid);
    refData := None;
    var i := 0;
    while i < |keyd|
      invariant i <= |keyd|
      invariant LookupSoFar(whole, keyd, fid, i, refData)
    {
      var data := keyd[i].data;
      var tag := FindTag(data, 0x83);
      if !(tag.Some? && |tag.value| == 4 && tag.value[2] == Hi(fid) && tag.value[3] == Lo(fid)) {
        LookupSoFarNext(whole, keyd, fid, i, refData);
        i := i + 1;
        continue;
      }
      // A matching record: its reference data is written whatever follows.
      ghost var before := refData;
      refData := Some((tag.value[0], tag.value[1]));
      var se := FindTag(data, 0x7B);
      if se.None? || se.value == [] {
        LookupSoFarNext(whole, keyd, fid, i, before);
        i := i + 1;
        continue;
      }
      var ref := FindTag(se.value, 0x80);
      if ref.None? || |ref.value| != 1 {
        LookupSoFarNext(whole, keyd, fid, i, before);
        i := i + 1;
        continue;
      }
      LookupSoFarFound(whole, keyd, fid, i, before);
      return ref.value[0], refData;
    }
    LookupSoFarEnd(whole, keyd, fid, refData);
    num := -1;
  }

  /** The record list a KeyD record with one `83` object and one `7B` holding `80 01 se` forms. */
  function KeyRecordData(ref0: byte, ref1: byte, fid: u16, se: byte): seq<byte> {
    EncodeAll([Obj(0x83, [ref0, ref1, Hi(fid), Lo(fid)]), Obj(0x7B, Encode(Obj(0x80, [se])))])
  }

  /** The `83` and `7B`/`80` objects of such a record are found where they were put. */
  lemma KeyRecordFields(ref0: byte, ref1: byte, fid: u16, se: byte)
    ensures var data := KeyRecordData(ref0, ref1, fid, se);
            NamesFid(data, fid) && RefOf(data, fid) == (ref0, ref1) && SeNumber(data) == Some(se)
  {
    var inner := Obj(0x80, [se]);
    var objs := [Obj(0x83, [ref0, ref1, Hi(fid), Lo(fid)]), Obj(0x7B, Encode(inner))];
    FindTagEncoded(objs, 0x83);
    FindTagEncoded(objs, 0x7B);
    assert FindTag(KeyRecordData(ref0, ref1, fid, se), 0x7B) == Some(Encode(inner));
    FindTagEncoded([inner], 0x80);
    assert EncodeAll([inner]) == Encode(inner);
    assert FindTag(Encode(inner), 0x80) == Some([se]);
  }

  /** A well-formed KeyD record for the file, first in the list, gives its SE number and its reference data. */
  lemma LookupWellFormedRecord(recno: nat, ref0: byte, ref1: byte, fid: u16, se: byte, rest: seq<Record>, written: Option<(byte, byte)>)
    ensures SeNumFromRecords([Record(recno, KeyRecordData(ref0, ref1, fid, se))] + rest, fid, written)
            == SeLookup(se, Some((ref0, ref1)))
  {
    KeyRecordFields(ref0, ref1, fid, se);
  }

  /**
   * A record that names the file but has no `7B` does not end the search
   * with SE 0: with nothing else to search, the result is -1, and yet its
   * reference data has been written.
   */
  lemma MissingSeObjectContinues(recno: nat, ref0: byte, ref1: byte, fid: u16, written: Option<(byte, byte)>)
    ensures var data := Encode(Obj(0x83, [ref0, ref1, Hi(fid), Lo(fid)]));
            SeNumFromRecords([Record(recno, data)], fid, written) == SeLookup(-1, Some((ref0, ref1)))
  {
    var o := Obj(0x83, [ref0, ref1, Hi(fid), Lo(fid)]);
    FindTagEncoded([o], 0x83);
    FindTagEncoded([o], 0x7B);
    assert EncodeAll([o]) == Encode(o);
    assert SeNumber(Encode(o)).None?;
  }
}
