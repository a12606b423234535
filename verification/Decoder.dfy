/**
  `Unmarshal` as a function: from the receiver and the bytes to the receiver afterwards and the error.

  An index into the input is split into the number of bytes before it (`base`, which the overflow
  checks depend on) and the bytes from it on.
 */
module Decoder {
  import opened Bits
  import opened Errors
  import opened Schemas
  import opened Skipper
  import opened Varints

  // ---------------------------------------------------------------- lengths

  /** A length and the bytes it announces: `head` bytes of length, then `len` bytes. */
  datatype Chunk = Chunk(head: nat, len: nat, err: Error)

  /** The checks in front of `dAtA[iNdEx:postIndex]`. */
  function Delimited(base: nat, s: Bytes): (c: Chunk)
    ensures c.err == Nil ==> 1 <= c.head && c.head + c.len <= |s|
  {
    var r := ReadVarint(s);
    if r.err != Nil then Chunk(0, 0, r.err) else
    var len := ToInt64(Wrap64(r.value));
    if len < 0 then Chunk(0, 0, InvalidLength)
    else if base + r.n + len >= TWO63 then Chunk(0, 0, InvalidLength)
    else if r.n + len > |s| then Chunk(0, 0, UnexpectedEOF)
    else Chunk(r.n, len, Nil)
  }

  /** The announced bytes. */
  function Payload(s: Bytes, c: Chunk): Bytes
    requires c.head + c.len <= |s|
  {
    s[c.head..c.head + c.len]
  }

  /** `int32(wire >> 3)`. */
  function FieldNumber(tag: nat): int32 {
    ToInt32(Wrap64(tag) / 8)
  }

  // ---------------------------------------------------------------- unknown fields

  /** The checks around the call of `skipCompany` on the input from `base` on. */
  function SkipUnknown(base: nat, s: Bytes, limit: int): (r: Skipped)
    ensures r.err == Nil ==> 1 <= r.n <= limit
  {
    var k := SkipField(s);
    if k.err != Nil then Skipped(0, k.err)
    else if base + k.n >= TWO63 then Skipped(0, InvalidLength)
    else if k.n > limit then Skipped(0, UnexpectedEOF)
    else k
  }

  // ---------------------------------------------------------------- map entries

  /** The variables `mapkey` and `mapvalue` of the entry loop, and how it ended. */
  datatype Entry = Entry(key: Bytes, value: int32, err: Error)

  /** One round of the entry loop: the variables afterwards and the bytes read. */
  datatype EntryStep = EntryStep(key: Bytes, value: int32, n: nat, err: Error)

  /**
    One field of a map entry of which `room` bytes are left. Wire types are not checked; key and
    value may lie beyond the entry; a repeated value is or-ed into the previous one.
   */
  function DecodeEntryField(base: nat, s: Bytes, room: int, key: Bytes, value: int32): (st: EntryStep)
    requires room <= |s|
    ensures st.err == Nil ==> 1 <= st.n <= |s|
  {
    var tag := ReadVarint(s);
    if tag.err != Nil then EntryStep(key, value, 0, tag.err) else
    var num, rest := FieldNumber(tag.value), s[tag.n..];
    if num == 1 then
      var c := Delimited(base + tag.n, rest);
      if c.err != Nil then EntryStep(key, value, 0, c.err)
      else EntryStep(Payload(rest, c), value, tag.n + c.head + c.len, Nil)
    else if num == 2 then
      var r := ReadVarint(rest);
      if r.err != Nil then EntryStep(key, value, 0, r.err)
      else EntryStep(key, OrInto(value, r.value), tag.n + r.n, Nil)
    else
      var k := SkipUnknown(base, s, room);
      EntryStep(key, value, k.n, k.err)
  }

  /**
    The loop over one map entry. It may read beyond the entry, up to the end of the input; then
    `room` is negative and the loop is over.
   */
  function ReadEntry(base: nat, s: Bytes, room: int, key: Bytes, value: int32): (e: Entry)
    requires room <= |s|
    decreases |s|
  {
    if room <= 0 then Entry(key, value, Nil) else
    var st := DecodeEntryField(base, s, room, key, value);
    if st.err != Nil then Entry(key, value, st.err)
    else ReadEntry(base + st.n, s[st.n..], room - st.n, st.key, st.value)
  }

  // ---------------------------------------------------------------- fields

  /** The field after reading one occurrence of it, and the bytes read behind the tag. */
  datatype FieldStep = FieldStep(v: Value, n: nat, err: Error)

  function ExpectedWireType(k: Kind): nat {
    if k.KBool? || k.KInt32? then 0 else 2
  }

  /** One occurrence of a known field of kind `k`, behind its tag. */
  ghost function DecodeField(k: Kind, v: Value, wireType: nat, base: nat, s: Bytes): (st: FieldStep)
    requires TypedValue(k, v)
    ensures TypedValue(k, st.v)
    ensures st.err == Nil ==> 1 <= st.n <= |s|
    decreases |s|, 2
  {
    if wireType != ExpectedWireType(k) then FieldStep(v, 0, WrongWireType)
    else if k.KBool? then
      var r := ReadVarint(s);
      FieldStep(if r.err == Nil then VBool(Wrap64(r.value) != 0) else v, r.n, r.err)
    else if k.KInt32? then
      // the bits are or-ed into the field itself, so it changes even if the varint is broken
      var r := ReadVarint(s);
      FieldStep(VInt32(OrInto(0, r.value)), r.n, r.err)
    else
      var c := Delimited(base, s);
      if c.err != Nil then FieldStep(v, 0, c.err)
      else DecodeDelimited(k, v, base, s, c)
  }

  /** One occurrence of a known length-delimited field whose length has passed the checks. */
  ghost function DecodeDelimited(k: Kind, v: Value, base: nat, s: Bytes, c: Chunk): (st: FieldStep)
    requires TypedValue(k, v) && !k.KBool? && !k.KInt32?
    requires c == Delimited(base, s) && c.err == Nil
    ensures TypedValue(k, st.v)
    ensures st.n == c.head + c.len
    decreases |s|, 1
  {
    var n, payload := c.head + c.len, Payload(s, c);
    match k
    case KString => FieldStep(VString(payload), n, Nil)
    case KStrings => FieldStep(VStrings(v.strs + [payload]), n, Nil)
    case KMessage(sub) =>
      var o := Decode(sub, v.m, 0, payload);
      FieldStep(VMessage(o.m), n, o.err)
    case KMessages(sub) =>
      var o := Decode(sub, Empty(sub), 0, payload);
      FieldStep(VMessages(v.ms + [o.m]), n, o.err)
    case KMap =>
      var e := ReadEntry(base + c.head, s[c.head..], c.len, [], 0);
      FieldStep(if e.err == Nil then VMap(v.entries[e.key := e.value]) else v, n, e.err)
  }

  // ---------------------------------------------------------------- messages

  /** One round of the loop of `Unmarshal`: the receiver and the bytes read. */
  datatype Step = Step(m: Message, n: nat, err: Error)

  ghost function DecodeRecord(sc: Schema, m: Message, base: nat, s: Bytes): (st: Step)
    requires Typed(sc, m) && s != []
    ensures Typed(sc, st.m)
    ensures st.err == Nil ==> 1 <= st.n <= |s|
    decreases |s|, 0
  {
    var tag := ReadVarint(s);
    if tag.err != Nil then Step(m, 0, tag.err) else
    var num, wireType := FieldNumber(tag.value), WireType(tag.value);
    if wireType == 4 then Step(m, 0, EndGroupForNonGroup)
    else if num <= 0 then Step(m, 0, IllegalTag)
    else
      var i := Find(sc, num);
      if i < 0 then
        var k := SkipUnknown(base, s, |s|);
        Step(m, k.n, k.err)
      else
        var f := DecodeField(sc.fields[i].kind, m[i], wireType, base + tag.n, s[tag.n..]);
        Step(m[i := f.v], tag.n + f.n, f.err)
  }

  /** The receiver after `Unmarshal` and the error it returns. */
  datatype Outcome = Outcome(m: Message, err: Error)

  /** The loop of `Unmarshal`, entered at index `base` with `s` left to read. */
  ghost function Decode(sc: Schema, m: Message, base: nat, s: Bytes): (o: Outcome)
    requires Typed(sc, m)
    ensures Typed(sc, o.m)
    decreases |s|, 1
  {
    if s == [] then Outcome(m, Nil) else
    var st := DecodeRecord(sc, m, base, s);
    if st.err != Nil then Outcome(st.m, st.err)
    else Decode(sc, st.m, base + st.n, s[st.n..])
  }

  /** `m.Unmarshal(d)`. */
  ghost function Unmarshal(sc: Schema, m: Message, d: Bytes): (o: Outcome)
    requires Typed(sc, m)
    ensures Typed(sc, o.m)
  {
    Decode(sc, m, 0, d)
  }
}
