/**
  The bytes of a message, spelled out: which tag each field has, what is written for it and when
  nothing is. The tags are given as bytes, so nothing here depends on a schema.
 */
module Wire {
  import opened Bits
  import opened Encoder
  import opened Schemas
  import opened Varints

  /** A tag, a length and the bytes. */
  function Prefixed(tag: byte, s: Bytes): Bytes {
    [tag] + (Varint(|s|) + s)
  }

  function PrefixedAll(tag: byte, list: seq<Bytes>): Bytes {
    if list == [] then [] else Prefixed(tag, list[0]) + PrefixedAll(tag, list[1..])
  }

  function StringField(tag: byte, s: Bytes): Bytes {
    if s == [] then [] else Prefixed(tag, s)
  }

  /** A true bool is the varint 1. */
  function BoolField(tag: byte, b: bool): Bytes {
    if b then [tag, 0x01] else []
  }

  /** The varint of an int32: negative values are extended to 64 bits. */
  function Int32Bytes(v: int32): Bytes {
    Varint(if v < 0 then v + 0x1_0000_0000_0000_0000 else v)
  }

  function Int32Field(tag: byte, v: int32): Bytes {
    if v == 0 then [] else [tag] + Int32Bytes(v)
  }

  /** One behind the other. */
  function Concat(parts: seq<Bytes>): Bytes {
    if parts == [] then [] else parts[0] + Concat(parts[1..])
  }

  // ---------------------------------------------------------------- what the writer writes

  lemma StringWritten(num: nat, s: Bytes, visit: Visit)
    requires 1 <= num <= 15 && Fair(visit)
    ensures EncodeField(num, KString, VString(s), visit) == StringField(num * 8 + 2, s)
  {
    hide Varint;
    LenRecordPrefixed(num, s);
  }

  lemma LenRecordPrefixed(num: nat, s: Bytes)
    requires 1 <= num <= 15
    ensures LenRecord(num, s) == Prefixed(num * 8 + 2, s)
  {
    hide Varint;
  }

  lemma BoolWritten(num: nat, b: bool, visit: Visit)
    requires 1 <= num <= 15 && Fair(visit)
    ensures EncodeField(num, KBool, VBool(b), visit) == BoolField(num * 8, b)
    ensures b ==> EncodeField(num, KBool, VBool(b), visit) == VarintRecord(num, 1)
  {
  }

  lemma Int32Written(num: nat, v: int32, visit: Visit)
    requires 1 <= num <= 15 && Fair(visit)
    ensures EncodeField(num, KInt32, VInt32(v), visit) == Int32Field(num * 8, v)
  {
    hide Varint;
  }

  lemma MessageWritten(num: nat, sub: Schema, m: Message, visit: Visit)
    requires 1 <= num <= 15 && ValidSchema(sub) && Typed(sub, m) && Fair(visit)
    ensures EncodeField(num, KMessage(sub), VMessage(m), visit) == Prefixed(num * 8 + 2, Marshal(sub, m, visit))
  {
    hide Varint, EncodeFrom, LenRecord, Prefixed;
    LenRecordPrefixed(num, Marshal(sub, m, visit));
  }

  lemma {:induction false} StringsWritten(num: nat, strs: seq<Bytes>)
    requires 1 <= num <= 15
    ensures EncodeStrings(num, strs) == PrefixedAll(num * 8 + 2, strs)
  {
    hide LenRecord, Prefixed;
    if strs != [] {
      LenRecordPrefixed(num, strs[0]);
      StringsWritten(num, strs[1..]);
    }
  }

  lemma {:induction false} MessagesWritten(num: nat, sub: Schema, ms: seq<Message>, list: seq<Bytes>, visit: Visit)
    requires 1 <= num <= 15 && ValidSchema(sub) && Fair(visit) && |list| == |ms|
    requires forall i :: 0 <= i < |ms| ==> Typed(sub, ms[i]) && list[i] == Marshal(sub, ms[i], visit)
    ensures EncodeMessages(num, sub, ms, visit) == PrefixedAll(num * 8 + 2, list)
    decreases |ms|
  {
    hide LenRecord, Prefixed, EncodeFrom, Typed, ValidSchema;
    if ms != [] {
      LenRecordPrefixed(num, list[0]);
      MessagesWritten(num, sub, ms[1..], list[1..], visit);
    }
  }

  lemma StringListWritten(num: nat, strs: seq<Bytes>, visit: Visit)
    requires 1 <= num <= 15 && Fair(visit)
    ensures EncodeField(num, KStrings, VStrings(strs), visit) == PrefixedAll(num * 8 + 2, strs)
  {
    StringsWritten(num, strs);
  }

  lemma MessageListWritten(num: nat, sub: Schema, ms: seq<Message>, list: seq<Bytes>, visit: Visit)
    requires 1 <= num <= 15 && ValidSchema(sub) && Fair(visit) && |list| == |ms|
    requires forall i :: 0 <= i < |ms| ==> Typed(sub, ms[i]) && list[i] == Marshal(sub, ms[i], visit)
    ensures EncodeField(num, KMessages(sub), VMessages(ms), visit) == PrefixedAll(num * 8 + 2, list)
  {
    hide PrefixedAll, Marshal, EncodeMessages;
    MessagesWritten(num, sub, ms, list, visit);
  }

  /** `part` is what is written for the field at position `i`. */
  ghost predicate Writes(s: Schema, m: Message, i: nat, visit: Visit, part: Bytes)
    requires ValidSchema(s) && Typed(s, m) && Fair(visit) && i < |s.fields|
  {
    EncodeField(s.fields[i].num, s.fields[i].kind, m[i], visit) == part
  }

  /** The message is its fields in the order of their numbers. */
  lemma {:induction false} WrittenInOrder(s: Schema, m: Message, i: nat, visit: Visit, parts: seq<Bytes>)
    requires ValidSchema(s) && Typed(s, m) && Fair(visit) && i <= |s.fields| == |parts|
    requires forall j :: 0 <= j < |parts| ==> Writes(s, m, j, visit, parts[j])
    ensures EncodeFrom(s, m, i, visit) == Concat(parts[i..])
    decreases |s.fields| - i
  {
    hide EncodeField, Typed, ValidSchema;
    if i < |parts| {
      assert Writes(s, m, i, visit, parts[i]);
      assert parts[i..][1..] == parts[i + 1..];
      WrittenInOrder(s, m, i + 1, visit, parts);
    }
  }

  lemma MarshalIsConcat(s: Schema, m: Message, visit: Visit, parts: seq<Bytes>)
    requires ValidSchema(s) && Typed(s, m) && Fair(visit) && |s.fields| == |parts|
    requires forall j :: 0 <= j < |parts| ==> Writes(s, m, j, visit, parts[j])
    ensures Marshal(s, m, visit) == Concat(parts)
  {
    hide Typed, ValidSchema, EncodeFrom, Concat;
    WrittenInOrder(s, m, 0, visit, parts);
    assert parts[0..] == parts;
  }
}
