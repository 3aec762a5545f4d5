/**
 * Decoding of the file control parameters (FCP) a SELECT returns, after
 * section 5.3.3 of ISO/IEC 7816-4:2005: each field of the file descriptor
 * the driver fills in, as a function of the FCP bytes.
 */
module Fcp {
  import opened Wrappers
  import opened Bytes
  import opened Tlv

  /** The file types the decoder assigns; `Unset` is a fresh file's. */
  datatype FileType = Unset | WorkingEf | InternalEf | Df

  /** What the first byte of the file descriptor (tag 82) says. */
  datatype Descriptor = Descriptor(shareable: bool, efStructure: nat, fileType: Option<FileType>)

  /**
   * Bit 0x40 is "shareable", bits 0x38 (`(b >> 3) & 7`) the file type, of
   * which 0, 1 and 7 are known (a type left unknown is not assigned), and bits
   * 0x07 the EF structure.
   */
  function DecodeDescriptor(b: byte): (d: Descriptor)
    ensures d.efStructure < 8
  {
    var kind := (b / 8) % 8;
    Descriptor((b / 0x40) % 2 == 1, b % 8,
               if kind == 0 then Some(WorkingEf) else if kind == 1 then Some(InternalEf)
               else if kind == 7 then Some(Df) else None)
  }

  /** A descriptor byte from its parts: bit 0x80, shareable, the type bits and the EF structure. */
  function EncodeDescriptor(top: bool, shareable: bool, kind: nat, structure: nat): byte
    requires kind < 8 && structure < 8
  {
    (if top then 0x80 else 0) + (if shareable then 0x40 else 0) + 8 * kind + structure
  }

  /** Decoding a descriptor byte recovers each of the fields it was built from. */
  lemma DescriptorRoundTrip(top: bool, shareable: bool, kind: nat, structure: nat)
    requires kind < 8 && structure < 8
    ensures var d := DecodeDescriptor(EncodeDescriptor(top, shareable, kind, structure));
            d.shareable == shareable && d.efStructure == structure
            && (d.fileType == Some(WorkingEf) <==> kind == 0)
            && (d.fileType == Some(InternalEf) <==> kind == 1)
            && (d.fileType == Some(Df) <==> kind == 7)
            && (d.fileType.None? <==> 2 <= kind <= 6)
  {
    var b := EncodeDescriptor(top, shareable, kind, structure);
    var t := if top then 1 else 0;
    var s := if shareable then 1 else 0;
    assert b == 0x40 * (2 * t + s) + 8 * kind + structure;
    assert b / 0x40 == 2 * t + s;
    assert b / 8 == 8 * (2 * t + s) + kind;
  }

  /** A working EF that is shareable, with a transparent structure (descriptor byte 41). */
  lemma SharedWorkingEf()
    ensures DecodeDescriptor(0x41) == Descriptor(true, 1, Some(WorkingEf))
  {
  }

  /** The file identifier: the value of a two-byte `83` object. */
  function FcpId(fcp: seq<byte>): (r: Option<u16>)
    ensures r.Some? <==> FindTag(fcp, 0x83).Some? && |FindTag(fcp, 0x83).value| == 2
    ensures r.Some? ==> FidBytes(r.value) == FindTag(fcp, 0x83).value
  {
    match FindTag(fcp, 0x83)
    case Some(v) =>
      if |v| == 2 then
        SplitJoin(v[0], v[1]);
        Some(Be16(v[0], v[1]))
      else None
    case None => None
  }

  /** The object the size is taken from: `81`, or else `85` (the descriptor extension this card misuses), or else `80`. */
  function SizeObject(fcp: seq<byte>): (r: Option<seq<byte>>)
    ensures FindTag(fcp, 0x81).Some? ==> r == FindTag(fcp, 0x81)
    ensures FindTag(fcp, 0x81).None? && FindTag(fcp, 0x85).Some? ==> r == FindTag(fcp, 0x85)
    ensures FindTag(fcp, 0x81).None? && FindTag(fcp, 0x85).None? ==> r == FindTag(fcp, 0x80)
  {
    match FindTag(fcp, 0x81)
    case Some(v) => Some(v)
    case None =>
      match FindTag(fcp, 0x85)
      case Some(v) => Some(v)
      case None => FindTag(fcp, 0x80)
  }

  /** `85` stands in for the size: there is no `81`, but there is an `85`. */
  predicate BadFde(fcp: seq<byte>) {
    FindTag(fcp, 0x81).None? && FindTag(fcp, 0x85).Some?
  }

  /** The number of bytes in the file: the first two bytes of the size object, when it has at least two. */
  function FcpSize(fcp: seq<byte>): (r: Option<nat>)
    ensures r.Some? <==> SizeObject(fcp).Some? && |SizeObject(fcp).value| >= 2
    ensures r.Some? ==> r.value < 0x1_0000 && FidBytes(r.value) == SizeObject(fcp).value[..2]
  {
    match SizeObject(fcp)
    case Some(v) =>
      if |v| >= 2 then
        SplitJoin(v[0], v[1]);
        Some(Be16(v[0], v[1]) as nat)
      else None
    case None => None
  }

  /** The decoded first descriptor byte, when a non-empty `82` is present. */
  function FcpDescriptor(fcp: seq<byte>): (r: Option<Descriptor>)
    ensures r.Some? <==> FindTag(fcp, 0x82).Some? && FindTag(fcp, 0x82).value != []
  {
    match FindTag(fcp, 0x82)
    case Some(v) => if v != [] then Some(DecodeDescriptor(v[0])) else None
    case None => None
  }

  /** The DF name: an `84` of 1 to 16 bytes. */
  function FcpName(fcp: seq<byte>): (r: Option<seq<byte>>)
    ensures r.Some? <==> FindTag(fcp, 0x84).Some? && 1 <= |FindTag(fcp, 0x84).value| <= 16
    ensures r.Some? ==> r == FindTag(fcp, 0x84)
  {
    match FindTag(fcp, 0x84)
    case Some(v) => if 1 <= |v| <= 16 then Some(v) else None
    case None => None
  }

  /**
   * The proprietary attributes: a non-empty `A5`, or else a non-empty `85`
   * that was not taken as the size, or else none.
   */
  function FcpPropAttr(fcp: seq<byte>): (r: seq<byte>)
    ensures FindTag(fcp, 0xA5).Some? && FindTag(fcp, 0xA5).value != [] ==> r == FindTag(fcp, 0xA5).value
    ensures BadFde(fcp) && !(FindTag(fcp, 0xA5).Some? && FindTag(fcp, 0xA5).value != []) ==> r == []
    ensures r != [] ==> Some(r) == FindTag(fcp, 0xA5) || (!BadFde(fcp) && Some(r) == FindTag(fcp, 0x85))
  {
    var base := if BadFde(fcp) then [] else match FindTag(fcp, 0x85) case Some(v) => v case None => [];
    match FindTag(fcp, 0xA5)
    case Some(v) => if v != [] then v else base
    case None => base
  }

  /** The security attributes in proprietary format: a non-empty `86`. */
  function FcpSecAttr(fcp: seq<byte>): (r: Option<seq<byte>>)
    ensures r.Some? ==> r.value != [] && r == FindTag(fcp, 0x86)
    ensures r.None? ==> FindTag(fcp, 0x86).None? || FindTag(fcp, 0x86).value == []
  {
    match FindTag(fcp, 0x86)
    case Some(v) => if v != [] then Some(v) else None
    case None => None
  }

  /**
   * The reference to an expanded access rule: a non-empty `8B`, or else a
   * non-empty `8B` inside a non-empty `A1` (the security attribute template
   * for interface mode).
   */
  function FcpArrRef(fcp: seq<byte>): (r: Option<seq<byte>>)
    ensures r.Some? ==> r.value != []
    ensures FindTag(fcp, 0x8B).Some? && FindTag(fcp, 0x8B).value != [] ==> r == FindTag(fcp, 0x8B)
    ensures r.Some? && r != FindTag(fcp, 0x8B) ==>
              FindTag(fcp, 0xA1).Some? && r == FindTag(FindTag(fcp, 0xA1).value, 0x8B)
  {
    match FindTag(fcp, 0x8B)
    case Some(v) =>
      if v != [] then Some(v) else Interface(fcp)
    case None => Interface(fcp)
  }

  /** The `8B` of a non-empty `A1`. */
  function Interface(fcp: seq<byte>): (r: Option<seq<byte>>)
    ensures r.Some? ==> r.value != [] && FindTag(fcp, 0xA1).Some? && r == FindTag(FindTag(fcp, 0xA1).value, 0x8B)
  {
    match FindTag(fcp, 0xA1)
    case Some(t) =>
      if t != [] then
        match FindTag(t, 0x8B)
        case Some(v) => if v != [] then Some(v) else None
        case None => None
      else None
    case None => None
  }

  /** The objects of an FCP with identifier, size (in `81`), descriptor byte and name, in that order. */
  function StandardObjects(fid: u16, size: u16, descriptor: byte, name: seq<byte>): (objs: seq<Obj>)
    requires |name| <= 16
    ensures forall o :: o in objs ==> Encodable(o)
  {
    [Obj(0x83, FidBytes(fid)), Obj(0x81, FidBytes(size)), Obj(0x82, [descriptor]), Obj(0x84, name)]
  }

  /** Where each tag is found in the standard objects: the first four by position, any other nowhere. */
  lemma StandardTags(fid: u16, size: u16, descriptor: byte, name: seq<byte>, tag: byte)
    requires |name| <= 16
    ensures var fcp := EncodeAll(StandardObjects(fid, size, descriptor, name));
            FindTag(fcp, tag) ==
              if tag == 0x83 then Some(FidBytes(fid)) else if tag == 0x81 then Some(FidBytes(size))
              else if tag == 0x82 then Some([descriptor]) else if tag == 0x84 then Some(name) else None
  {
    var objs := StandardObjects(fid, size, descriptor, name);
    FindTagEncoded(objs, tag);
    assert objs[1..] == [objs[1], objs[2], objs[3]];
    assert objs[1..][1..] == [objs[2], objs[3]];
    assert objs[1..][1..][1..] == [objs[3]];
    assert objs[1..][1..][1..][1..] == [];
  }

  /** Decoding an FCP built from identifier, size, descriptor byte and name gives each of them back. */
  lemma StandardFcpRoundTrip(fid: u16, size: u16, descriptor: byte, name: seq<byte>)
    requires 1 <= |name| <= 16
    ensures var fcp := EncodeAll(StandardObjects(fid, size, descriptor, name));
            FcpId(fcp) == Some(fid) && FcpSize(fcp) == Some(size) && FcpDescriptor(fcp) == Some(DecodeDescriptor(descriptor))
            && FcpName(fcp) == Some(name) && FcpPropAttr(fcp) == [] && FcpSecAttr(fcp).None? && FcpArrRef(fcp).None?
  {
    StandardTags(fid, size, descriptor, name, 0x83);
    StandardTags(fid, size, descriptor, name, 0x81);
    StandardTags(fid, size, descriptor, name, 0x82);
    StandardTags(fid, size, descriptor, name, 0x84);
    StandardTags(fid, size, descriptor, name, 0x85);
    StandardTags(fid, size, descriptor, name, 0xA5);
    StandardTags(fid, size, descriptor, name, 0x86);
    StandardTags(fid, size, descriptor, name, 0x8B);
    StandardTags(fid, size, descriptor, name, 0xA1);
    JoinSplit(fid);
    JoinSplit(size);
    assert FidBytes(size)[..2] == FidBytes(size);
  }

  /** Identifier 4101, 100 bytes, a shareable working EF. */
  lemma ExampleFcp()
    ensures var fcp := EncodeAll(StandardObjects(0x4101, 100, 0x41, [0x41, 0x42]));
            FcpId(fcp) == Some(0x4101) && FcpSize(fcp) == Some(100)
            && FcpDescriptor(fcp) == Some(Descriptor(true, 1, Some(WorkingEf)))
  {
    StandardFcpRoundTrip(0x4101, 100, 0x41, [0x41, 0x42]);
    SharedWorkingEf();
  }

  /**
   * A card that puts the size in `85` (and has no `81`): the size is taken
   * from it, and it is not stored as proprietary attributes as well.
   */
  lemma SizeInDescriptorExtension(size: u16, rest: seq<Obj>)
    requires forall o :: o in rest ==> Encodable(o) && o.tag !in {0x81, 0xA5}
    ensures var fcp := EncodeAll([Obj(0x85, FidBytes(size))] + rest);
            FcpSize(fcp) == Some(size) && FcpPropAttr(fcp) == []
  {
    var objs := [Obj(0x85, FidBytes(size))] + rest;
    assert forall o :: o in objs ==> Encodable(o);
    FindTagEncoded(objs, 0x81);
    FindTagEncoded(objs, 0x85);
    FindTagEncoded(objs, 0xA5);
    JoinSplit(size);
    assert FidBytes(size)[..2] == FidBytes(size);
  }

  /** The fields of a file descriptor the decoder sets, as a value. */
  datatype FileInfo = FileInfo(id: u16, size: nat, fileType: FileType, efStructure: nat, shareable: bool,
                               name: seq<byte>, propAttr: seq<byte>, secAttr: seq<byte>)

  /** A fresh file: everything zero (sc_file_new is not part of this model). */
  const Blank: FileInfo := FileInfo(0, 0, Unset, 0, false, [], [], [])

  /**
   * `process_fcp` on a file: each field the FCP carries overwrites the
   * file's, a field it does not carry is left as it was, except the
   * proprietary attributes, which are always reset.
   */
  function DecodeInto(f: FileInfo, fcp: seq<byte>): FileInfo
  {
    var d := FcpDescriptor(fcp);
    FileInfo(
      if FcpId(fcp).Some? then FcpId(fcp).value else f.id,
      if FcpSize(fcp).Some? then FcpSize(fcp).value else f.size,
      if d.Some? && d.value.fileType.Some? then d.value.fileType.value else f.fileType,
      if d.Some? then d.value.efStructure else f.efStructure,
      if d.Some? then d.value.shareable else f.shareable,
      if FcpName(fcp).Some? then FcpName(fcp).value else f.name,
      FcpPropAttr(fcp),
      if FcpSecAttr(fcp).Some? then FcpSecAttr(fcp).value else f.secAttr)
  }

  /** Decoding the standard FCP into a fresh file gives a file with exactly those fields. */
  lemma DecodedStandardFile(fid: u16, size: u16, shareable: bool, kind: nat, structure: nat, name: seq<byte>)
    requires kind in {0, 1, 7} && structure < 8 && 1 <= |name| <= 16
    ensures var fcp := EncodeAll(StandardObjects(fid, size, EncodeDescriptor(false, shareable, kind, structure), name));
            DecodeInto(Blank, fcp)
            == FileInfo(fid, size, if kind == 0 then WorkingEf else if kind == 1 then InternalEf else Df,
                        structure, shareable, name, [], [])
  {
    var b := EncodeDescriptor(false, shareable, kind, structure);
    StandardFcpRoundTrip(fid, size, b, name);
    DescriptorRoundTrip(false, shareable, kind, structure);
  }

  /** A file descriptor as the driver fills it in (the fields of `sc_file` this decoder sets). */
  class File {
    var id: u16
    var size: nat
    var fileType: FileType
    var efStructure: nat
    var shareable: bool
    var name: seq<byte>
    var propAttr: seq<byte>
    var secAttr: seq<byte>

    function Info(): FileInfo
      reads this
    {
      FileInfo(id, size, fileType, efStructure, shareable, name, propAttr, secAttr)
    }

    /** The field assignments of `process_fcp`: each field the FCP carries overwrites the file's. */
    method Decode(fcp: seq<byte>)
      modifies this
      ensures Info() == DecodeInto(old(Info()), fcp)
    {
      DecodeHeader(fcp);
      DecodeAttributes(fcp);
    }

    /** The identifier, size and descriptor fields of `process_fcp`. */
    method DecodeHeader(fcp: seq<byte>)
      modifies this
      ensures var want := DecodeInto(old(Info()), fcp);
              id == want.id && size == want.size && fileType == want.fileType
              && efStructure == want.efStructure && shareable == want.shareable
      ensures name == old(name) && propAttr == old(propAttr) && secAttr == old(secAttr)
    {
      var fid := FcpId(fcp);
      if fid.Some? {
        id := fid.value;
      }
      var n := FcpSize(fcp);
      if n.Some? {
        size := n.value;
      }
      var d := FcpDescriptor(fcp);
      if d.Some? {
        shareable := d.value.shareable;
        efStructure := d.value.efStructure;
        if d.value.fileType.Some? {
          fileType := d.value.fileType.value;
        }
      }
    }

    /** The name, proprietary and security attribute fields of `process_fcp`. */
    method DecodeAttributes(fcp: seq<byte>)
      modifies this
      ensures var want := DecodeInto(old(Info()), fcp);
              name == want.name && propAttr == want.propAttr && secAttr == want.secAttr
      ensures id == old(id) && size == old(size) && fileType == old(fileType)
              && efStructure == old(efStructure) && shareable == old(shareable)
    {
      var fcpName := FcpName(fcp);
      if fcpName.Some? {
        name := fcpName.value;
      }
      propAttr := FcpPropAttr(fcp);
      var sec := FcpSecAttr(fcp);
      if sec.Some? {
        secAttr := sec.value;
      }
    }

    /** A fresh, zeroed file. */
    constructor ()
      ensures Info() == Blank
    {
      id := 0;
      size := 0;
      fileType := Unset;
      efStructure := 0;
      shareable := false;
      name := [];
      propAttr := [];
      secAttr := [];
    }
  }
}
