/**
 * Interpretation of an expanded access rule (the `process_arr` walk over an
 * EF_Rule record, after ISO/IEC 7816-9 section 8.5.4). The driver only logs
 * what it recognises; here the recognised objects are the result.
 */
module Arr {
  import opened Wrappers
  import opened Bytes
  import opened Tlv

  /** A security condition data object, classified by its tag. */
  datatype Condition =
    | Always                                 // tag 90
    | Never                                  // tag 97
    | Authentication(crt: seq<byte>)         // tag A4, a control reference template
    | SecureMessaging(tag: byte, crt: seq<byte>) // tags B4, B6, B8
    | ConditionByte(value: seq<byte>)        // tag 9E
    | OrTemplate                             // tag A0
    | AndTemplate                            // tag AF

  /** What the interpreter reports, in order. */
  datatype ArrItem =
    | AccessModeByte(am: byte)                        // tag 80 of length 1
    | CommandDescription(bits: nat, value: seq<byte>) // tags 81..8F; bits C, I, 1, 2 = tag & 0F
    | SecurityCondition(condition: Condition)

  /** An object that opens a new access-mode context and ends skip mode. */
  predicate OpensAccessMode(o: Obj) {
    (o.tag == 0x80 && |o.value| == 1) || (0x81 <= o.tag <= 0x8F)
  }

  /** An object that starts skip mode: a malformed access-mode byte or a proprietary state machine (9C). */
  predicate StartsSkip(o: Obj) {
    (o.tag == 0x80 && |o.value| != 1) || o.tag == 0x9C
  }

  /** The security condition an object stands for, if its tag is one the driver recognises. */
  function ConditionOf(o: Obj): (r: Option<Condition>)
    ensures r.Some? ==> !OpensAccessMode(o) && !StartsSkip(o)
  {
    match o.tag
    case 0x90 => Some(Always)
    case 0x97 => Some(Never)
    case 0xA4 => Some(Authentication(o.value))
    case 0xB4 => Some(SecureMessaging(0xB4, o.value))
    case 0xB6 => Some(SecureMessaging(0xB6, o.value))
    case 0xB8 => Some(SecureMessaging(0xB8, o.value))
    case 0x9E => Some(ConditionByte(o.value))
    case 0xA0 => Some(OrTemplate)
    case 0xAF => Some(AndTemplate)
    case _ => None
  }

  /** The item an access-mode opener is reported as. */
  function OpenerItem(o: Obj): (r: ArrItem)
    requires OpensAccessMode(o)
    ensures !r.SecurityCondition?
  {
    if o.tag == 0x80 then AccessModeByte(o.value[0]) else CommandDescription(o.tag - 0x80, o.value)
  }

  /** One object: what it reports, and the skip flag afterwards. */
  function Step(o: Obj, skip: bool): (r: (Option<ArrItem>, bool))
    ensures r.1 <==> StartsSkip(o) || (skip && !OpensAccessMode(o))
    ensures r.0.Some? && r.0.value.SecurityCondition? ==> !skip && ConditionOf(o) == Some(r.0.value.condition)
    ensures OpensAccessMode(o) ==> r.0 == Some(OpenerItem(o))
  {
    if o.tag == 0x80 && |o.value| != 1 then (None, true)
    else if OpensAccessMode(o) then (Some(OpenerItem(o)), false)
    else if o.tag == 0x9C then (None, true)
    else if skip then (None, true)
    else match ConditionOf(o)
      case None => (None, false)
      case Some(c) => (Some(SecurityCondition(c)), false)
  }

  function AsSeq(x: Option<ArrItem>): seq<ArrItem> {
    if x.Some? then [x.value] else []
  }

  /** The items reported for a list of objects, starting with the given skip flag. */
  function Interpret(objs: seq<Obj>, skip: bool): seq<ArrItem> {
    if objs == [] then []
    else
      var (item, skip') := Step(objs[0], skip);
      AsSeq(item) + Interpret(objs[1..], skip')
  }

  /** The items reported for the bytes of a rule record, starting with the given skip flag. */
  function ArrItems(buf: seq<byte>, skip: bool): seq<ArrItem>
    decreases |buf|
  {
    match ReadObject(buf)
    case None => []
    case Some(p) =>
      var (item, skip') := Step(p.obj, skip);
      AsSeq(item) + ArrItems(p.rest, skip')
  }

  /** Parsing then interpreting an encoded rule is interpreting its object list. */
  lemma {:induction false} ArrItemsEncoded(objs: seq<Obj>, skip: bool)
    requires forall o :: o in objs ==> Encodable(o)
    ensures ArrItems(EncodeAll(objs), skip) == Interpret(objs, skip)
  {
    if objs != [] {
      ReadEncoded(objs[0], EncodeAll(objs[1..]));
      ArrItemsEncoded(objs[1..], Step(objs[0], skip).1);
    }
  }

  /**
   * The walk starts in skip mode, so no security condition is reported before
   * the first access-mode object.
   */
  lemma {:induction false} NoConditionBeforeAccessMode(objs: seq<Obj>)
    ensures Interpret(objs, true) != [] ==> !Interpret(objs, true)[0].SecurityCondition?
  {
    if objs != [] {
      var (item, skip') := Step(objs[0], true);
      if item.None? {
        assert skip';
        NoConditionBeforeAccessMode(objs[1..]);
      }
    }
  }

  /** After a skip-starting object, nothing is reported until an access mode is opened again. */
  lemma {:induction false} SkipSuppresses(o: Obj, objs: seq<Obj>, skip: bool)
    requires StartsSkip(o)
    requires forall x :: x in objs ==> !OpensAccessMode(x)
    ensures Interpret([o] + objs, skip) == []
  {
    assert ([o] + objs)[1..] == objs;
    SkippedRun(objs);
  }

  lemma {:induction false} SkippedRun(objs: seq<Obj>)
    requires forall x :: x in objs ==> !OpensAccessMode(x)
    ensures Interpret(objs, true) == []
  {
    if objs != [] {
      assert objs[0] in objs;
      SkippedRun(objs[1..]);
    }
  }

  /**
   * After an access-mode object, every recognised security condition that
   * follows is reported, in order.
   */
  lemma {:induction false} OpenerReportsConditions(o: Obj, conds: seq<Obj>, skip: bool)
    requires OpensAccessMode(o)
    requires forall c :: c in conds ==> ConditionOf(c).Some?
    ensures |Interpret([o] + conds, skip)| == |conds| + 1
    ensures Interpret([o] + conds, skip)[0] == OpenerItem(o)
    ensures forall i :: 0 <= i < |conds| ==>
              Interpret([o] + conds, skip)[i + 1] == SecurityCondition(ConditionOf(conds[i]).value)
  {
    assert ([o] + conds)[1..] == conds;
    ActiveRun(conds);
  }

  lemma {:induction false} ActiveRun(conds: seq<Obj>)
    requires forall c :: c in conds ==> ConditionOf(c).Some?
    ensures |Interpret(conds, false)| == |conds|
    ensures forall i :: 0 <= i < |conds| ==> Interpret(conds, false)[i] == SecurityCondition(ConditionOf(conds[i]).value)
  {
    if conds != [] {
      assert conds[0] in conds;
      assert forall c :: c in conds[1..] ==> c in conds;
      ActiveRun(conds[1..]);
    }
  }

  /** The `process_arr` loop: walks the objects of a rule record, toggling the skip flag. */
  method ProcessArr(rule: seq<byte>) returns (items: seq<ArrItem>)
    ensures items == ArrItems(rule, true)
  {
    var p := rule;
    var skip := true; // skip over initial unknown security condition objects
    items := [];
    while true
      invariant items + ArrItems(p, skip) == ArrItems(rule, true)
      decreases |p|
    {
      var next := ReadObject(p);
      if next.None? {
        break;
      }
      // One object: the if-chain of the source, as Step.
      var item: Option<ArrItem>;
      ghost var skip0 := skip;
      item, skip := Step(next.value.obj, skip).0, Step(next.value.obj, skip).1;
      ghost var tail := ArrItems(next.value.rest, skip);
      assert ArrItems(p, skip0) == AsSeq(item) + tail;
      AppendAssoc(items, AsSeq(item), tail);
      items := items + AsSeq(item);
      p := next.value.rest;
    }
  }

  /** What ARR processing of one selected file found (diagnostic only). */
  datatype AclResult =
    | NoArr                                        // no ARR reference in the FCP
    | LongArrUnsupported(reference: seq<byte>)     // only the one-byte short form is handled
    | RuleNotFound(recno: byte)                    // no EF_Rule record with that number is cached
    | RuleObjects(recno: byte, items: seq<ArrItem>)
}
