/**
  What the code generator is given: the numbered fields of a message and the shape of each. The
  messages of the services are instances (see module CompanySchemas).
 */
module Schemas {
  import opened Bits

  datatype Kind =
    | KString                  // string
    | KBool                    // bool
    | KInt32                   // int32
    | KMessage(sub: Schema)    // an embedded message, always emitted (nullable = false)
    | KStrings                 // repeated string
    | KMessages(sub: Schema)   // repeated message
    | KMap                     // map<string, int32>

  datatype Field = Field(num: nat, kind: Kind)

  /** The fields in ascending order of their numbers. */
  datatype Schema = Schema(fields: seq<Field>)

  /**
    The contents of one Go struct field. A nil and an empty list or map are the same value.
   */
  datatype Value =
    | VString(str: Bytes)
    | VBool(b: bool)
    | VInt32(i: int32)
    | VMessage(m: seq<Value>)
    | VStrings(strs: seq<Bytes>)
    | VMessages(ms: seq<seq<Value>>)
    | VMap(entries: map<Bytes, int32>)

  /** The contents of a Go struct, field by field in the order of the schema. */
  type Message = seq<Value>

  /** Field numbers ascend and fit, with the wire type, into a tag of one byte. */
  ghost predicate ValidSchema(s: Schema)
    decreases s
  {
    && (forall i, j :: 0 <= i < j < |s.fields| ==> s.fields[i].num < s.fields[j].num)
    && forall i :: 0 <= i < |s.fields| ==> 1 <= s.fields[i].num <= 15 && ValidKind(s.fields[i].kind)
  }

  ghost predicate ValidKind(k: Kind)
    decreases k
  {
    k.KMessage? || k.KMessages? ==> ValidSchema(k.sub)
  }

  /** No field of the message itself is a map. */
  ghost predicate NoMap(sc: Schema) {
    forall i :: 0 <= i < |sc.fields| ==> !sc.fields[i].kind.KMap?
  }

  /** `m` is a message of schema `s`. */
  ghost predicate Typed(s: Schema, m: Message)
    decreases s
  {
    |m| == |s.fields| && forall i :: 0 <= i < |m| ==> TypedValue(s.fields[i].kind, m[i])
  }

  ghost predicate TypedValue(k: Kind, v: Value)
    decreases k
  {
    match k
    case KString => v.VString?
    case KBool => v.VBool?
    case KInt32 => v.VInt32?
    case KMessage(sub) => v.VMessage? && Typed(sub, v.m)
    case KStrings => v.VStrings?
    case KMessages(sub) => v.VMessages? && forall i :: 0 <= i < |v.ms| ==> Typed(sub, v.ms[i])
    case KMap => v.VMap?
  }

  /** The zero value of a Go struct. */
  ghost function Empty(s: Schema): (m: Message)
    ensures Typed(s, m)
    decreases s
  {
    seq(|s.fields|, i requires 0 <= i < |s.fields| => EmptyValue(s.fields[i].kind))
  }

  ghost function EmptyValue(k: Kind): (v: Value)
    ensures TypedValue(k, v)
    decreases k
  {
    match k
    case KString => VString([])
    case KBool => VBool(false)
    case KInt32 => VInt32(0)
    case KMessage(sub) => VMessage(Empty(sub))
    case KStrings => VStrings([])
    case KMessages(_) => VMessages([])
    case KMap => VMap(map[])
  }

  /** The `switch fieldNum`: the position of the field with this number, or -1. */
  ghost function Find(s: Schema, num: int): (i: int)
    ensures -1 <= i < |s.fields|
    ensures i >= 0 ==> s.fields[i].num == num
    ensures i < 0 ==> forall j :: 0 <= j < |s.fields| ==> s.fields[j].num != num
  {
    if i :| 0 <= i < |s.fields| && s.fields[i].num == num then i else -1
  }

  lemma FindAt(s: Schema, i: nat)
    requires ValidSchema(s) && i < |s.fields|
    ensures Find(s, s.fields[i].num) == i
  {
  }
}
