/**
 * A first-match tag-length-value reader. It stands in for the library's
 * `sc_asn1_read_tag` and `sc_asn1_find_tag`, which are not part of this model.
 * An object is one tag byte (class and constructed bits included, as the
 * driver recombines them with `tag |= cla`), a length in short form (one byte
 * below 0x80) or long form (`81 nn` or `82 nn nn`), and a value that must fit
 * in what is left of the buffer; anything else ends the scan.
 */
module Tlv {
  import opened Wrappers
  import opened Bytes

  datatype Obj = Obj(tag: byte, value: seq<byte>)

  /** One object read from the front of a buffer, and the bytes after it. */
  datatype Parsed = Parsed(obj: Obj, rest: seq<byte>)

  /** The header length and the value length announced by the length field. */
  function LengthField(buf: seq<byte>): (r: Option<(nat, nat)>)
    requires |buf| >= 2
    ensures r.Some? ==> 2 <= r.value.0 <= 4 && r.value.0 <= |buf|
  {
    if buf[1] < 0x80 then Some((2, buf[1]))
    else if buf[1] == 0x81 && |buf| >= 3 then Some((3, buf[2]))
    else if buf[1] == 0x82 && |buf| >= 4 then Some((4, Be16(buf[2], buf[3]) as nat))
    else None
  }

  /** Reads the object at the front of `buf`; None when no complete object is there. */
  function ReadObject(buf: seq<byte>): (r: Option<Parsed>)
    ensures r.Some? ==> |r.value.obj.value| + |r.value.rest| + 2 <= |buf|
    ensures r.Some? ==> buf[0] == r.value.obj.tag
  {
    if |buf| < 2 then None
    else match LengthField(buf)
      case None => None
      case Some((h, n)) =>
        if h + n <= |buf| then
          Some(Parsed(Obj(buf[0], buf[h..h + n]), buf[h + n..]))
        else None
  }

  /** The value of the first object carrying `tag`, scanning objects in order. */
  function FindTag(buf: seq<byte>, tag: byte): (r: Option<seq<byte>>)
    ensures r.Some? ==> |r.value| + 2 <= |buf|
    decreases |buf|
  {
    match ReadObject(buf)
    case None => None
    case Some(p) => if p.obj.tag == tag then Some(p.obj.value) else FindTag(p.rest, tag)
  }

  /** An object whose length the long form `82 nn nn` can still express. */
  ghost predicate Encodable(o: Obj) {
    |o.value| < 0x1_0000
  }

  /** The shortest length field for `n`. */
  function EncodeLength(n: nat): (r: seq<byte>)
    requires n < 0x1_0000
    ensures 1 <= |r| <= 3
  {
    if n < 0x80 then [n]
    else if n < 0x100 then [0x81, n]
    else [0x82, n / 0x100, n % 0x100]
  }

  function Encode(o: Obj): (r: seq<byte>)
    requires Encodable(o)
    ensures |r| >= 2 && r[0] == o.tag
  {
    [o.tag] + EncodeLength(|o.value|) + o.value
  }

  function EncodeAll(objs: seq<Obj>): (r: seq<byte>)
    requires forall o :: o in objs ==> Encodable(o)
  {
    if objs == [] then [] else Encode(objs[0]) + EncodeAll(objs[1..])
  }

  /** The value of the first object of a list that carries `tag`. */
  function FirstValue(objs: seq<Obj>, tag: byte): (r: Option<seq<byte>>)
    ensures r.None? <==> forall i :: 0 <= i < |objs| ==> objs[i].tag != tag
    ensures r.Some? ==> exists i :: 0 <= i < |objs| && objs[i] == Obj(tag, r.value)
  {
    if objs == [] then None
    else if objs[0].tag == tag then Some(objs[0].value)
    else
      var r := FirstValue(objs[1..], tag);
      assert forall i :: 1 <= i < |objs| ==> objs[i] == objs[1..][i - 1];
      r
  }

  /** Reading an encoded object gives back the object and the bytes that follow it. */
  lemma ReadEncoded(o: Obj, rest: seq<byte>)
    requires Encodable(o)
    ensures ReadObject(Encode(o) + rest) == Some(Parsed(o, rest))
  {
    var buf := Encode(o) + rest;
    var h := 1 + |EncodeLength(|o.value|)|;
    assert buf[h..h + |o.value|] == o.value;
    assert buf[h + |o.value|..] == rest;
  }

  /** Searching an encoded object list finds the first object with the tag, and only it. */
  lemma {:induction false} FindTagEncoded(objs: seq<Obj>, tag: byte)
    requires forall o :: o in objs ==> Encodable(o)
    ensures FindTag(EncodeAll(objs), tag) == FirstValue(objs, tag)
  {
    if objs != [] {
      ReadEncoded(objs[0], EncodeAll(objs[1..]));
      FindTagEncoded(objs[1..], tag);
    }
  }
}
