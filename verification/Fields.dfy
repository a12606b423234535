/**
  The blocks of code that the generator repeats for every field of a kind: one reader and one writer
  per kind. The generated methods of the messages are sequences of these blocks.
 */
module Fields {
  import opened Bits
  import opened Buffer
  import opened Decoder
  import opened Encoder
  import opened Entries
  import opened Errors
  import opened Schemas
  import opened Skipper
  import opened Varints

  // ---------------------------------------------------------------- reading

  /** A block that started at `start` has done `st` to a field and to the index. */
  ghost predicate Did(st: FieldStep, v: Value, start: int, iNdEx: int, err: Error) {
    st.v == v && st.err == err && (err == Nil ==> iNdEx == start + st.n)
  }

  /** The head of the loop: a tag and the two checks on it. */
  method ReadTag(dAtA: Bytes, start: nat) returns (fieldNum: int32, wireType: nat, iNdEx: nat, err: Error)
    requires start < |dAtA|
    ensures err == TagError(dAtA[start..])
    ensures err == Nil ==>
              && fieldNum == FieldNumber(ReadVarint(dAtA[start..]).value) > 0
              && wireType == WireType(ReadVarint(dAtA[start..]).value)
              && iNdEx == start + ReadVarint(dAtA[start..]).n <= |dAtA|
  {
    hide ReadVarint;
    var wire;
    wire, iNdEx, err := ReadUint64(dAtA, start);
    fieldNum, wireType := ToInt32(wire / 8), wire % 8;
    if err != Nil {
      return;
    }
    if wireType == 4 {
      err := EndGroupForNonGroup;
    } else if fieldNum <= 0 {
      err := IllegalTag;
    }
  }

  /** Why a record is refused before its field is looked at. */
  function TagError(s: Bytes): Error {
    var tag := ReadVarint(s);
    if tag.err != Nil then tag.err
    else if WireType(tag.value) == 4 then EndGroupForNonGroup
    else if FieldNumber(tag.value) <= 0 then IllegalTag
    else Nil
  }

  /** A length and the checks on it, up to `dAtA[iNdEx:postIndex]`. */
  method ReadLength(dAtA: Bytes, start: nat) returns (iNdEx: nat, postIndex: nat, err: Error)
    requires start <= |dAtA| < TWO63
    ensures var c := Delimited(start, dAtA[start..]);
            && err == c.err
            && (err == Nil ==>
                  && iNdEx == start + c.head && postIndex == iNdEx + c.len <= |dAtA|
                  && dAtA[iNdEx..postIndex] == Payload(dAtA[start..], c))
  {
    hide ReadVarint;
    var x;
    x, iNdEx, err := ReadUint64(dAtA, start);
    postIndex := iNdEx;
    if err != Nil {
      return;
    }
    var intLen := ToInt64(x);
    if intLen < 0 {
      err := InvalidLength;
      return;
    }
    var post := Add64(iNdEx, intLen);
    if post < 0 {
      err := InvalidLength;
      return;
    }
    if post > |dAtA| {
      err := UnexpectedEOF;
      return;
    }
    postIndex := post;
  }

  method ReadString(dAtA: Bytes, start: nat, wireType: nat, cur: Bytes) returns (str: Bytes, iNdEx: nat, err: Error)
    requires start <= |dAtA| < TWO63
    ensures Did(DecodeField(KString, VString(cur), wireType, start, dAtA[start..]), VString(str), start, iNdEx, err)
  {
    hide ReadVarint, Delimited;
    str, iNdEx := cur, start;
    if wireType != 2 {
      err := WrongWireType;
      return;
    }
    var postIndex;
    iNdEx, postIndex, err := ReadLength(dAtA, start);
    if err != Nil {
      return;
    }
    str, iNdEx := dAtA[iNdEx..postIndex], postIndex;
  }

  method AppendString(dAtA: Bytes, start: nat, wireType: nat, cur: seq<Bytes>)
    returns (strs: seq<Bytes>, iNdEx: nat, err: Error)
    requires start <= |dAtA| < TWO63
    ensures Did(DecodeField(KStrings, VStrings(cur), wireType, start, dAtA[start..]), VStrings(strs), start, iNdEx, err)
  {
    hide ReadVarint, Delimited;
    strs, iNdEx := cur, start;
    if wireType != 2 {
      err := WrongWireType;
      return;
    }
    var postIndex;
    iNdEx, postIndex, err := ReadLength(dAtA, start);
    if err != Nil {
      return;
    }
    strs, iNdEx := strs + [dAtA[iNdEx..postIndex]], postIndex;
  }

  method ReadBool(dAtA: Bytes, start: nat, wireType: nat, cur: bool) returns (b: bool, iNdEx: nat, err: Error)
    requires start <= |dAtA|
    ensures Did(DecodeField(KBool, VBool(cur), wireType, start, dAtA[start..]), VBool(b), start, iNdEx, err)
  {
    hide ReadVarint;
    b, iNdEx := cur, start;
    if wireType != 0 {
      err := WrongWireType;
      return;
    }
    var v;
    v, iNdEx, err := ReadUint64(dAtA, start);
    if err != Nil {
      return;
    }
    b := v != 0;
  }

  /** The field is reset and the varint is or-ed into it, even when it turns out to be broken. */
  method ReadInt32Field(dAtA: Bytes, start: nat, wireType: nat, cur: int32) returns (i: int32, iNdEx: nat, err: Error)
    requires start <= |dAtA|
    ensures Did(DecodeField(KInt32, VInt32(cur), wireType, start, dAtA[start..]), VInt32(i), start, iNdEx, err)
  {
    hide ReadVarint, OrInto;
    i, iNdEx := cur, start;
    if wireType != 0 {
      err := WrongWireType;
      return;
    }
    i := 0;
    i, iNdEx, err := ReadInt32(dAtA, start, i);
  }

  /** The checks in front of an embedded message or a map entry. */
  method ReadMessageHead(dAtA: Bytes, start: nat, wireType: nat) returns (iNdEx: nat, postIndex: nat, err: Error)
    requires start <= |dAtA| < TWO63
    ensures wireType != 2 ==> err == WrongWireType
    ensures wireType == 2 ==>
              var c := Delimited(start, dAtA[start..]);
              && err == c.err
              && (err == Nil ==>
                    && iNdEx == start + c.head && postIndex == iNdEx + c.len <= |dAtA|
                    && dAtA[iNdEx..postIndex] == Payload(dAtA[start..], c))
  {
    iNdEx, postIndex := start, start;
    if wireType != 2 {
      err := WrongWireType;
      return;
    }
    iNdEx, postIndex, err := ReadLength(dAtA, start);
  }

  /** A nested field that is refused before its bytes are looked at. */
  lemma NestedRefused(k: Kind, v: Value, wireType: nat, dAtA: Bytes, start: nat, iNdEx: int, err: Error)
    requires TypedValue(k, v) && !k.KBool? && !k.KInt32? && start <= |dAtA|
    requires if wireType == 2 then err == Delimited(start, dAtA[start..]).err != Nil else err == WrongWireType
    ensures Did(DecodeField(k, v, wireType, start, dAtA[start..]), v, start, iNdEx, err)
  {
    hide Delimited, Typed;
  }

  /** A nested field whose bytes are handed on: what the outer field becomes. */
  lemma NestedRead(k: Kind, v: Value, dAtA: Bytes, start: nat, c: Chunk)
    requires TypedValue(k, v) && !k.KBool? && !k.KInt32? && start <= |dAtA|
    requires c == Delimited(start, dAtA[start..]) && c.err == Nil
    ensures var s := dAtA[start..];
            var payload := Payload(s, c);
            && (k.KMessage? ==>
                  var o := Decode(k.sub, v.m, 0, payload);
                  Did(DecodeField(k, v, 2, start, s), VMessage(o.m), start, start + c.head + c.len, o.err))
            && (k.KMessages? ==>
                  var o := Decode(k.sub, Empty(k.sub), 0, payload);
                  Did(DecodeField(k, v, 2, start, s), VMessages(v.ms + [o.m]), start, start + c.head + c.len, o.err))
            && (k.KMap? ==>
                  var e := ReadEntry(start + c.head, s[c.head..], c.len, [], 0);
                  var v' := if e.err == Nil then VMap(v.entries[e.key := e.value]) else v;
                  Did(DecodeField(k, v, 2, start, s), v', start, start + c.head + c.len, e.err))
  {
    hide Delimited, Decode, ReadEntry, Typed;
  }

  /** The `default` branch: back to the tag and skip; the skip must end at `limit` or before. */
  method SkipUnknownField(dAtA: Bytes, preIndex: nat, limit: nat) returns (iNdEx: nat, err: Error)
    requires preIndex <= limit <= |dAtA| < TWO63
    ensures var k := SkipUnknown(preIndex, dAtA[preIndex..], limit - preIndex);
            err == k.err && (err == Nil ==> iNdEx == preIndex + k.n)
  {
    hide SkipFrom;
    iNdEx := preIndex;
    var skippy;
    skippy, err := SkipCompany(dAtA[iNdEx..]);
    if err != Nil {
      return;
    }
    if skippy < 0 || Add64(iNdEx, skippy) < 0 {
      err := InvalidLength;
      return;
    }
    if Add64(iNdEx, skippy) > limit {
      err := UnexpectedEOF;
      return;
    }
    iNdEx := iNdEx + skippy;
  }

  // ---------------------------------------------------------------- the loop over a map entry

  /** One round of the entry loop. */
  method UnmarshalEntryField(dAtA: Bytes, preIndex: nat, postIndex: nat, key: Bytes, value: int32)
    returns (mapkey: Bytes, mapvalue: int32, iNdEx: nat, err: Error)
    requires preIndex < postIndex <= |dAtA| < TWO63
    ensures var st := DecodeEntryField(preIndex, dAtA[preIndex..], postIndex - preIndex, key, value);
            && err == st.err
            && (err == Nil ==> mapkey == st.key && mapvalue == st.value && iNdEx == preIndex + st.n)
  {
    hide ReadVarint, Delimited, SkipUnknown, OrInto;
    mapkey, mapvalue := key, value;
    var wire;
    wire, iNdEx, err := ReadUint64(dAtA, preIndex);
    if err != Nil {
      return;
    }
    assert dAtA[preIndex..][iNdEx - preIndex..] == dAtA[iNdEx..];
    var fieldNum := ToInt32(wire / 8);
    if fieldNum == 1 {
      var postStringIndex;
      iNdEx, postStringIndex, err := ReadLength(dAtA, iNdEx);
      if err != Nil {
        return;
      }
      mapkey, iNdEx := dAtA[iNdEx..postStringIndex], postStringIndex;
    } else if fieldNum == 2 {
      mapvalue, iNdEx, err := ReadInt32(dAtA, iNdEx, mapvalue);
    } else {
      iNdEx, err := SkipUnknownField(dAtA, preIndex, postIndex);
    }
  }

  /** The input starts with these parts, and they fit into the entry. */
  ghost predicate InEntry(ps: seq<Part>, s: Bytes, start: nat, postIndex: nat) {
    ValidParts(ps) && Fits(ps, postIndex - start) && Parts(ps) <= s
  }

  lemma EntryIsInside(s: Bytes, start: nat, postIndex: nat)
    requires start <= postIndex <= start + |s| < TWO63
    ensures ReadEntry(start, s, postIndex - start, [], 0).err == Nil ==> exists ps :: InEntry(ps, s, start, postIndex)
    ensures forall ps :: InEntry(ps, s, start, postIndex) ==>
              ReadEntry(start, s, postIndex - start, [], 0) == Entry(LastKey([], ps), OrAll(0, Vals(ps)), Nil)
  {
    hide ReadEntry, ValidParts, Fits, Parts, LastKey, OrAll, Vals;
    var room := postIndex - start;
    var e := ReadEntry(start, s, room, [], 0);
    EntryIsParts(start, s, room, [], 0, e.key, e.value);
    if ps :| ValidParts(ps) && Fits(ps, room) && Parts(ps) <= s {
      assert InEntry(ps, s, start, postIndex);
    }
    forall ps | InEntry(ps, s, start, postIndex)
      ensures e == Entry(LastKey([], ps), OrAll(0, Vals(ps)), Nil)
    {
      EntryIsParts(start, s, room, [], 0, LastKey([], ps), OrAll(0, Vals(ps)));
    }
  }

  /** The entry loop; the index it ends at is not used. */
  method UnmarshalEntry(dAtA: Bytes, start: nat, postIndex: nat) returns (mapkey: Bytes, mapvalue: int32, err: Error)
    requires start <= postIndex <= |dAtA| < TWO63
    ensures var e := ReadEntry(start, dAtA[start..], postIndex - start, [], 0);
            err == e.err && (err == Nil ==> mapkey == e.key && mapvalue == e.value)
    ensures err == Nil ==> exists ps :: InEntry(ps, dAtA[start..], start, postIndex)
    ensures forall ps :: InEntry(ps, dAtA[start..], start, postIndex) ==>
              err == Nil && mapkey == LastKey([], ps) && mapvalue == OrAll(0, Vals(ps))
  {
    hide DecodeEntryField, InEntry;
    EntryIsInside(dAtA[start..], start, postIndex);
    mapkey, mapvalue, err := [], 0, Nil;
    var iNdEx := start;
    while iNdEx < postIndex
      invariant iNdEx <= |dAtA| && err == Nil
      invariant ReadEntry(start, dAtA[start..], postIndex - start, [], 0)
                == ReadEntry(iNdEx, dAtA[iNdEx..], postIndex - iNdEx, mapkey, mapvalue)
      decreases |dAtA| - iNdEx
    {
      ghost var entryPreIndex := iNdEx;
      mapkey, mapvalue, iNdEx, err := UnmarshalEntryField(dAtA, iNdEx, postIndex, mapkey, mapvalue);
      if err != Nil {
        return;
      }
      assert dAtA[entryPreIndex..][iNdEx - entryPreIndex..] == dAtA[iNdEx..];
    }
  }

  // ---------------------------------------------------------------- the loop of Unmarshal

  /** A round of the loop has left the receiver as `m`, the index at `iNdEx` and the error `err`. */
  ghost predicate Round(sc: Schema, before: Message, dAtA: Bytes, preIndex: nat, m: Message, iNdEx: int, err: Error)
    requires Typed(sc, before) && preIndex < |dAtA|
  {
    var st := DecodeRecord(sc, before, preIndex, dAtA[preIndex..]);
    st.m == m && st.err == err && (err == Nil ==> iNdEx == preIndex + st.n)
  }

  /** A round that is refused at its tag. */
  lemma RoundRefused(sc: Schema, m: Message, dAtA: Bytes, preIndex: nat, iNdEx: int)
    requires Typed(sc, m) && preIndex < |dAtA| && TagError(dAtA[preIndex..]) != Nil
    ensures Round(sc, m, dAtA, preIndex, m, iNdEx, TagError(dAtA[preIndex..]))
  {
    hide ReadVarint, DecodeField, SkipUnknown;
  }

  /** A round that reads the known field at position `i`. */
  lemma RoundKnown(
    sc: Schema, m: Message, dAtA: Bytes, preIndex: nat, i: nat, v: Value, m': Message, iNdEx: int, err: Error)
    requires ValidSchema(sc) && Typed(sc, m) && preIndex < |dAtA| && i < |sc.fields| && m' == m[i := v]
    requires TagError(dAtA[preIndex..]) == Nil
    requires FieldNumber(ReadVarint(dAtA[preIndex..]).value) == sc.fields[i].num
    requires var tag := ReadVarint(dAtA[preIndex..]);
             var start := preIndex + tag.n;
             Did(DecodeField(sc.fields[i].kind, m[i], WireType(tag.value), start, dAtA[start..]), v, start, iNdEx, err)
    ensures Round(sc, m, dAtA, preIndex, m', iNdEx, err)
  {
    hide ReadVarint, DecodeField, SkipUnknown;
    var tag := ReadVarint(dAtA[preIndex..]);
    FindAt(sc, i);
    assert dAtA[preIndex..][tag.n..] == dAtA[preIndex + tag.n..];
  }

  /** A round that skips an unknown field. */
  lemma RoundUnknown(sc: Schema, m: Message, dAtA: Bytes, preIndex: nat, iNdEx: int, err: Error)
    requires Typed(sc, m) && preIndex < |dAtA|
    requires TagError(dAtA[preIndex..]) == Nil
    requires Find(sc, FieldNumber(ReadVarint(dAtA[preIndex..]).value)) < 0
    requires var k := SkipUnknown(preIndex, dAtA[preIndex..], |dAtA| - preIndex);
             err == k.err && (err == Nil ==> iNdEx == preIndex + k.n)
    ensures Round(sc, m, dAtA, preIndex, m, iNdEx, err)
  {
    hide ReadVarint, DecodeField, SkipUnknown;
  }

  /** What a round means for the rest of the loop. */
  lemma RoundDone(sc: Schema, before: Message, dAtA: Bytes, preIndex: nat, m: Message, iNdEx: int, err: Error)
    requires Typed(sc, before) && preIndex < |dAtA|
    requires Round(sc, before, dAtA, preIndex, m, iNdEx, err)
    ensures Typed(sc, m)
    ensures err != Nil ==> Decode(sc, before, preIndex, dAtA[preIndex..]) == Outcome(m, err)
    ensures err == Nil ==>
              && preIndex < iNdEx <= |dAtA|
              && Decode(sc, before, preIndex, dAtA[preIndex..]) == Decode(sc, m, iNdEx, dAtA[iNdEx..])
  {
    hide DecodeRecord, Typed;
    var st := DecodeRecord(sc, before, preIndex, dAtA[preIndex..]);
    if err == Nil {
      assert dAtA[preIndex..][st.n..] == dAtA[iNdEx..];
    }
  }

  /** The loop starts with the whole input and ends when nothing is left. */
  lemma LoopEnds(sc: Schema, m: Message, dAtA: Bytes)
    requires Typed(sc, m)
    ensures dAtA[0..] == dAtA
    ensures Decode(sc, m, |dAtA|, dAtA[|dAtA|..]) == Outcome(m, Nil)
  {
  }

  // ---------------------------------------------------------------- writing

  /**
    What a `MarshalToSizedBuffer` is writing: the message, the buffer as it was, and the end of the
    slice it was given.
   */
  datatype Job = Job(sc: Schema, m: Message, visit: Visit, before: Bytes, end: nat)

  ghost predicate ValidJob(w: Job) {
    && ValidSchema(w.sc) && Typed(w.sc, w.m) && Fair(w.visit)
    && |Marshal(w.sc, w.m, w.visit)| <= w.end <= |w.before| < TWO63
  }

  /** The fields from position `k` on are in place, from index `i` to the end. */
  ghost predicate Placed(w: Job, now: Bytes, i: int, k: nat) {
    ValidJob(w) && k <= |w.sc.fields| && Filled(w.before, now, i, w.end, EncodeFrom(w.sc, w.m, k, w.visit))
  }

  lemma PlacedNothing(w: Job)
    requires ValidJob(w)
    ensures Placed(w, w.before, w.end, |w.sc.fields|)
  {
    FilledNothing(w.before, w.end);
  }

  lemma PlacedAll(w: Job, now: Bytes, i: int)
    requires Placed(w, now, i, 0)
    ensures 0 <= i <= w.end && Filled(w.before, now, i, w.end, Marshal(w.sc, w.m, w.visit))
  {
  }

  lemma {:induction false} Suffix(w: Job, k: nat)
    requires ValidJob(w) && k <= |w.sc.fields|
    ensures |EncodeFrom(w.sc, w.m, k, w.visit)| <= |Marshal(w.sc, w.m, w.visit)|
    decreases k
  {
    hide EncodeField;
    if k > 0 {
      Suffix(w, k - 1);
    }
  }

  /** The bytes of the field at position `k`. */
  ghost function FieldBytes(w: Job, k: nat): Bytes
    requires ValidJob(w) && k < |w.sc.fields|
  {
    EncodeField(w.sc.fields[k].num, w.sc.fields[k].kind, w.m[k], w.visit)
  }

  /** There is room for the field at position `k` in front of the later ones. */
  lemma Room(w: Job, now: Bytes, i: int, k: nat)
    requires k < |w.sc.fields| && Placed(w, now, i, k + 1)
    ensures 0 <= i - |FieldBytes(w, k)| <= i <= |now| == |w.before| < TWO63
  {
    hide EncodeField;
    Suffix(w, k);
    assert EncodeFrom(w.sc, w.m, k, w.visit) == FieldBytes(w, k) + EncodeFrom(w.sc, w.m, k + 1, w.visit);
  }

  /** Writing the bytes of the field at position `k` in front of the later ones. */
  lemma PlacedField(w: Job, s0: Bytes, s1: Bytes, lo: int, i: int, k: nat)
    requires k < |w.sc.fields| && Placed(w, s0, i, k + 1)
    requires Filled(s0, s1, lo, i, FieldBytes(w, k))
    ensures Placed(w, s1, lo, k)
  {
    hide EncodeField, Filled;
    assert EncodeFrom(w.sc, w.m, k, w.visit) == FieldBytes(w, k) + EncodeFrom(w.sc, w.m, k + 1, w.visit);
    FilledTwice(w.before, s0, s1, lo, i, w.end, FieldBytes(w, k), EncodeFrom(w.sc, w.m, k + 1, w.visit));
  }

  method PutByte(dAtA: array<byte>, end: int, b: byte) returns (i: int)
    requires 1 <= end <= dAtA.Length
    modifies dAtA
    ensures i == end - 1 && Filled(old(dAtA[..]), dAtA[..], i, end, [b])
  {
    i := end - 1;
    dAtA[i] := b;
  }

  /** The bytes of a string are copied in front of what has been written. */
  method PutBytes(dAtA: array<byte>, end: int, s: Bytes) returns (i: int)
    requires |s| <= end <= dAtA.Length
    modifies dAtA
    ensures i == end - |s| && Filled(old(dAtA[..]), dAtA[..], i, end, s)
  {
    i := end - |s|;
    forall k | 0 <= k < |s| {
      dAtA[i + k] := s[k];
    }
  }

  /** The length and the tag in front of `payload`, which ends at `end`. */
  method PutHead(
    dAtA: array<byte>, end: int, size: nat, tag: byte, ghost num: nat, ghost payload: Bytes, ghost s0: Bytes)
    returns (i: int)
    requires 1 <= num <= 15 && tag == num * 8 + 2 && size == |payload|
    requires |LenRecord(num, payload)| <= end <= dAtA.Length < TWO63
    requires Filled(s0, dAtA[..], end - size, end, payload)
    modifies dAtA
    ensures Filled(s0, dAtA[..], i, end, LenRecord(num, payload))
  {
    hide Filled, Sov, Varint;
    SovIsLength(size);
    ghost var s1 := dAtA[..];
    i := EncodeVarint(dAtA, end - size, size);
    ghost var s2 := dAtA[..];
    FilledTwice(s0, s1, s2, i, end - size, end, Varint(size), payload);
    FilledLength(s0, s2, i, end, Varint(size) + payload);
    i := PutByte(dAtA, i, tag);
    FilledTwice(s0, s2, dAtA[..], i, i + 1, end, [tag], Varint(size) + payload);
    assert [tag] + (Varint(size) + payload) == LenRecord(num, payload);
  }

  lemma FilledLength(s0: Bytes, s1: Bytes, lo: int, hi: int, s: Bytes)
    requires Filled(s0, s1, lo, hi, s)
    ensures lo == hi - |s| && |s1| == |s0|
  {
  }

  /** `copy` and the length and tag in front of it. */
  method PutLenRecord(dAtA: array<byte>, end: int, tag: byte, s: Bytes, ghost num: nat) returns (i: int)
    requires 1 <= num <= 15 && tag == num * 8 + 2
    requires |LenRecord(num, s)| <= end <= dAtA.Length < TWO63
    modifies dAtA
    ensures Filled(old(dAtA[..]), dAtA[..], i, end, LenRecord(num, s))
  {
    hide Filled;
    i := PutBytes(dAtA, end, s);
    i := PutHead(dAtA, end, |s|, tag, num, s, old(dAtA[..]));
  }

  method PutVarintRecord(dAtA: array<byte>, end: int, tag: byte, x: uint64, ghost num: nat) returns (i: int)
    requires 1 <= num <= 15 && tag == num * 8
    requires |VarintRecord(num, x)| <= end <= dAtA.Length
    modifies dAtA
    ensures Filled(old(dAtA[..]), dAtA[..], i, end, VarintRecord(num, x))
  {
    hide Filled, Sov, Varint;
    SovIsLength(x);
    ghost var s0 := dAtA[..];
    i := EncodeVarint(dAtA, end, x);
    ghost var s1 := dAtA[..];
    i := PutByte(dAtA, i, tag);
    FilledTwice(s0, s1, dAtA[..], i, i + 1, end, [tag], Varint(x));
  }

  /** A string field, unless it is empty. */
  method PutString(dAtA: array<byte>, end: int, tag: byte, str: Bytes, ghost w: Job, ghost k: nat) returns (i: int)
    requires k < |w.sc.fields| && Placed(w, dAtA[..], end, k + 1)
    requires w.sc.fields[k].kind.KString? && w.m[k] == VString(str) && tag == w.sc.fields[k].num * 8 + 2
    modifies dAtA
    ensures Placed(w, dAtA[..], i, k)
  {
    hide LenRecord, Filled;
    Room(w, dAtA[..], end, k);
    i := end;
    if |str| > 0 {
      i := PutLenRecord(dAtA, end, tag, str, w.sc.fields[k].num);
    } else {
      FilledNothing(dAtA[..], end);
    }
    PlacedField(w, old(dAtA[..]), dAtA[..], i, end, k);
  }

  /** A bool field, unless it is false. */
  method PutBool(dAtA: array<byte>, end: int, tag: byte, b: bool, ghost w: Job, ghost k: nat) returns (i: int)
    requires k < |w.sc.fields| && Placed(w, dAtA[..], end, k + 1)
    requires w.sc.fields[k].kind.KBool? && w.m[k] == VBool(b) && tag == w.sc.fields[k].num * 8
    modifies dAtA
    ensures Placed(w, dAtA[..], i, k)
  {
    hide Filled;
    Room(w, dAtA[..], end, k);
    i := end;
    ghost var s0 := dAtA[..];
    if b {
      i := PutByte(dAtA, i, 1);
      ghost var s1 := dAtA[..];
      i := PutByte(dAtA, i, tag);
      FilledTwice(s0, s1, dAtA[..], i, i + 1, end, [tag], [1]);
      assert [tag] + [1] == [tag, 1];
    } else {
      FilledNothing(dAtA[..], end);
    }
    PlacedField(w, s0, dAtA[..], i, end, k);
  }

  /** An int32 field, unless it is zero. */
  method PutInt32(dAtA: array<byte>, end: int, tag: byte, v: int32, ghost w: Job, ghost k: nat) returns (i: int)
    requires k < |w.sc.fields| && Placed(w, dAtA[..], end, k + 1)
    requires w.sc.fields[k].kind.KInt32? && w.m[k] == VInt32(v) && tag == w.sc.fields[k].num * 8
    modifies dAtA
    ensures Placed(w, dAtA[..], i, k)
  {
    hide VarintRecord, Filled;
    Room(w, dAtA[..], end, k);
    i := end;
    if v != 0 {
      i := PutVarintRecord(dAtA, end, tag, Extended(v), w.sc.fields[k].num);
    } else {
      FilledNothing(dAtA[..], end);
    }
    PlacedField(w, old(dAtA[..]), dAtA[..], i, end, k);
  }

  /** The loop over a list of strings, from the last to the first. */
  method PutStringRecords(dAtA: array<byte>, end: int, tag: byte, strs: seq<Bytes>, ghost num: nat) returns (i: int)
    requires 1 <= num <= 15 && tag == num * 8 + 2
    requires |EncodeStrings(num, strs)| <= end <= dAtA.Length < TWO63
    modifies dAtA
    ensures Filled(old(dAtA[..]), dAtA[..], i, end, EncodeStrings(num, strs))
  {
    hide LenRecord, Filled, EncodeStrings;
    i := end;
    var iNdEx := |strs| - 1;
    NoStrings(num);
    assert strs[|strs|..] == [];
    FilledNothing(dAtA[..], end);
    while iNdEx >= 0
      invariant -1 <= iNdEx < |strs|
      invariant Filled(old(dAtA[..]), dAtA[..], i, end, EncodeStrings(num, strs[iNdEx + 1..]))
    {
      ghost var s1, back, hi := dAtA[..], EncodeStrings(num, strs[iNdEx + 1..]), i;
      StringsSuffix(num, strs, iNdEx);
      FilledLength(old(dAtA[..]), s1, i, end, back);
      i := PutLenRecord(dAtA, i, tag, strs[iNdEx], num);
      FilledTwice(old(dAtA[..]), s1, dAtA[..], i, hi, end, LenRecord(num, strs[iNdEx]), back);
      iNdEx := iNdEx - 1;
    }
    assert strs[0..] == strs;
  }

  lemma NoStrings(num: nat)
    requires 1 <= num <= 15
    ensures EncodeStrings(num, []) == []
  {
  }

  /** A list of strings. */
  method PutStrings(dAtA: array<byte>, end: int, tag: byte, strs: seq<Bytes>, ghost w: Job, ghost k: nat)
    returns (i: int)
    requires k < |w.sc.fields| && Placed(w, dAtA[..], end, k + 1)
    requires w.sc.fields[k].kind.KStrings? && w.m[k] == VStrings(strs) && tag == w.sc.fields[k].num * 8 + 2
    modifies dAtA
    ensures Placed(w, dAtA[..], i, k)
  {
    hide EncodeStrings, Filled;
    Room(w, dAtA[..], end, k);
    i := PutStringRecords(dAtA, end, tag, strs, w.sc.fields[k].num);
    PlacedField(w, old(dAtA[..]), dAtA[..], i, end, k);
  }

  lemma {:induction false} StringsSuffix(num: nat, strs: seq<Bytes>, n: nat)
    requires 1 <= num <= 15 && n <= |strs|
    ensures |EncodeStrings(num, strs[n..])| <= |EncodeStrings(num, strs)|
    ensures n < |strs| ==>
              EncodeStrings(num, strs[n..]) == LenRecord(num, strs[n]) + EncodeStrings(num, strs[n + 1..])
    decreases n
  {
    hide LenRecord;
    if n < |strs| {
      assert strs[n..][1..] == strs[n + 1..];
    }
    if n > 0 {
      StringsSuffix(num, strs, n - 1);
      assert strs[n - 1..][1..] == strs[n..];
    } else {
      assert strs[0..] == strs;
    }
  }

  // ---------------------------------------------------------------- sizes

  /** What `sovCompany` returns, as an int. */
  function SovInt(x: uint64): (n: int64)
    ensures n == Sov(x) >= 1
  {
    VarintShort(x);
    SovIsLength(x);
    Sov(x)
  }

  /** The length of a slice, as an int. */
  function LenInt(s: Bytes): (l: int64)
    ensures |s| < TWO63 ==> l == |s|
  {
    ToInt64(Wrap64(|s|))
  }

  /** What is added for `l` bytes behind a tag and their length; the additions wrap around. */
  function AddLenSize(n: int64, l: int64): (n': int64)
    ensures 0 <= n && 0 <= l && n + LenSize(l) < TWO63 ==> n' == n + LenSize(l)
  {
    Add64(n, Add64(Add64(1, l), SovInt(ToUint64(l))))
  }

  /** `n` is the size of the fields before position `k`, if the size of all fields fits into an int. */
  ghost predicate Counted(sc: Schema, m: Message, visit: Visit, n: int64, k: nat) {
    && Typed(sc, m) && Fair(visit) && k <= |sc.fields|
    && (Size(sc, m, visit) < TWO63 ==> 0 <= n && n + SizeFrom(sc, m, k, visit) == Size(sc, m, visit))
  }

  lemma CountedNothing(sc: Schema, m: Message, visit: Visit)
    requires Typed(sc, m) && Fair(visit)
    ensures Counted(sc, m, visit, 0, 0)
  {
  }

  /** If the size fits, so does the sum with the next field. */
  lemma CountedRoom(sc: Schema, m: Message, visit: Visit, n: int64, k: nat)
    requires k < |sc.fields| && Counted(sc, m, visit, n, k)
    ensures Typed(sc, m) && Fair(visit) && TypedValue(sc.fields[k].kind, m[k])
    ensures Size(sc, m, visit) < TWO63 ==> 0 <= n && n + FieldSize(sc.fields[k].kind, m[k], visit) < TWO63
  {
    hide FieldSize;
  }

  lemma CountedField(sc: Schema, m: Message, visit: Visit, n: int64, n': int64, k: nat)
    requires k < |sc.fields| && Counted(sc, m, visit, n, k)
    requires Typed(sc, m) && Fair(visit) && TypedValue(sc.fields[k].kind, m[k])
    requires Size(sc, m, visit) < TWO63 ==> n' == n + FieldSize(sc.fields[k].kind, m[k], visit)
    ensures Counted(sc, m, visit, n', k + 1)
  {
    hide FieldSize;
  }

  lemma CountedAll(sc: Schema, m: Message, visit: Visit, n: int64)
    requires Counted(sc, m, visit, n, |sc.fields|)
    ensures Size(sc, m, visit) < TWO63 ==> n == Size(sc, m, visit)
  {
  }

  /** The size of a string field is added. */
  method CountString(n: int64, str: Bytes, ghost sc: Schema, ghost m: Message, ghost visit: Visit, ghost k: nat)
    returns (n': int64)
    requires Counted(sc, m, visit, n, k) && k < |sc.fields| && sc.fields[k].kind.KString? && m[k] == VString(str)
    ensures Counted(sc, m, visit, n', k + 1)
  {
    hide Sov, Counted;
    CountedRoom(sc, m, visit, n, k);
    var l := LenInt(str);
    n' := n;
    if l > 0 {
      n' := AddLenSize(n', l);
    }
    CountedField(sc, m, visit, n, n', k);
  }

  /** The size of a bool field is added. */
  method CountBool(n: int64, b: bool, ghost sc: Schema, ghost m: Message, ghost visit: Visit, ghost k: nat)
    returns (n': int64)
    requires Counted(sc, m, visit, n, k) && k < |sc.fields| && sc.fields[k].kind.KBool? && m[k] == VBool(b)
    ensures Counted(sc, m, visit, n', k + 1)
  {
    hide Counted;
    CountedRoom(sc, m, visit, n, k);
    n' := n;
    if b {
      n' := Add64(n', 2);
    }
    CountedField(sc, m, visit, n, n', k);
  }

  /** The size of an int32 field is added. */
  method CountInt32(n: int64, v: int32, ghost sc: Schema, ghost m: Message, ghost visit: Visit, ghost k: nat)
    returns (n': int64)
    requires Counted(sc, m, visit, n, k) && k < |sc.fields| && sc.fields[k].kind.KInt32? && m[k] == VInt32(v)
    ensures Counted(sc, m, visit, n', k + 1)
  {
    hide Sov, Counted;
    CountedRoom(sc, m, visit, n, k);
    n' := n;
    if v != 0 {
      n' := Add64(n', Add64(1, SovInt(Extended(v))));
    }
    CountedField(sc, m, visit, n, n', k);
  }

  /** The sizes of the strings of a list are added, from the first to the last. */
  method CountStrings(n: int64, strs: seq<Bytes>, ghost sc: Schema, ghost m: Message, ghost visit: Visit, ghost k: nat)
    returns (n': int64)
    requires Counted(sc, m, visit, n, k) && k < |sc.fields| && sc.fields[k].kind.KStrings? && m[k] == VStrings(strs)
    ensures Counted(sc, m, visit, n', k + 1)
  {
    hide Sov, Counted;
    CountedRoom(sc, m, visit, n, k);
    n' := n;
    for j := 0 to |strs|
      invariant Size(sc, m, visit) < TWO63 ==> 0 <= n' && n' + StringsSize(strs[j..]) == n + StringsSize(strs)
    {
      assert strs[j..][1..] == strs[j + 1..];
      n' := AddLenSize(n', LenInt(strs[j]));
    }
    CountedField(sc, m, visit, n, n', k);
  }

  /** What `Marshal` returns when its buffer has exactly the announced size. */
  lemma WholeBuffer(before: Bytes, now: Bytes, lo: int, s: Bytes)
    requires Filled(before, now, lo, |before|, s) && |s| == |before|
    ensures now == s
  {
  }

  // ---------------------------------------------------------------- nested messages

  /** The bytes of an embedded message, and the room for it. */
  lemma EmbeddedStarts(w: Job, now: Bytes, end: int, k: nat, num: nat, sub: Schema, m: Message)
    requires k < |w.sc.fields| && Placed(w, now, end, k + 1)
    requires w.sc.fields[k] == Field(num, KMessage(sub)) && w.m[k] == VMessage(m)
    ensures 1 <= num <= 15 && ValidSchema(sub) && Typed(sub, m) && Fair(w.visit)
    ensures FieldBytes(w, k) == LenRecord(num, Marshal(sub, m, w.visit))
    ensures |LenRecord(num, Marshal(sub, m, w.visit))| <= end <= |now| < TWO63
    ensures Size(sub, m, w.visit) <= end
  {
    hide EncodeFrom, SizeFrom;
    Room(w, now, end, k);
    assert TypedValue(w.sc.fields[k].kind, w.m[k]) && ValidKind(w.sc.fields[k].kind);
    SizeIsLength(sub, m, w.visit);
  }

  /** The messages of a list from position `j` on are in place. */
  ghost predicate ListPlaced(
    s0: Bytes, now: Bytes, i: int, end: int, num: nat, sub: Schema, ms: seq<Message>, visit: Visit, j: int)
  {
    && 1 <= num <= 15 && ValidSchema(sub) && Fair(visit) && 0 <= j <= |ms|
    && (forall i :: 0 <= i < |ms| ==> Typed(sub, ms[i]))
    && |EncodeMessages(num, sub, ms, visit)| <= end <= |s0| < TWO63
    && Filled(s0, now, i, end, EncodeMessages(num, sub, ms[j..], visit))
  }

  /** The loop over a list of messages starts behind the last one. */
  lemma ListStarts(w: Job, now: Bytes, end: int, k: nat, num: nat, sub: Schema, ms: seq<Message>)
    requires k < |w.sc.fields| && Placed(w, now, end, k + 1)
    requires w.sc.fields[k] == Field(num, KMessages(sub)) && w.m[k] == VMessages(ms)
    ensures ListPlaced(now, now, end, end, num, sub, ms, w.visit, |ms|)
    ensures FieldBytes(w, k) == EncodeMessages(num, sub, ms, w.visit)
  {
    hide EncodeFrom, EncodeMessages, Filled;
    Room(w, now, end, k);
    assert TypedValue(w.sc.fields[k].kind, w.m[k]) && ValidKind(w.sc.fields[k].kind);
    assert ms[|ms|..] == [];
    NoMessages(num, sub, w.visit);
    FilledNothing(now, end);
  }

  lemma NoMessages(num: nat, sub: Schema, visit: Visit)
    requires 1 <= num <= 15 && ValidSchema(sub) && Fair(visit)
    ensures EncodeMessages(num, sub, [], visit) == []
  {
  }

  lemma {:induction false} MessagesSuffix(num: nat, sub: Schema, ms: seq<Message>, n: nat, visit: Visit)
    requires 1 <= num <= 15 && ValidSchema(sub) && Fair(visit) && n <= |ms|
    requires forall i :: 0 <= i < |ms| ==> Typed(sub, ms[i])
    ensures |EncodeMessages(num, sub, ms[n..], visit)| <= |EncodeMessages(num, sub, ms, visit)|
    ensures n < |ms| ==> EncodeMessages(num, sub, ms[n..], visit)
                         == LenRecord(num, Marshal(sub, ms[n], visit)) + EncodeMessages(num, sub, ms[n + 1..], visit)
    decreases n
  {
    hide LenRecord, EncodeFrom, Typed, ValidSchema;
    if n < |ms| {
      assert ms[n..][1..] == ms[n + 1..];
    }
    if n > 0 {
      MessagesSuffix(num, sub, ms, n - 1, visit);
    } else {
      assert ms[0..] == ms;
    }
  }

  lemma ListFacts(
    s0: Bytes, now: Bytes, i: int, end: int, num: nat, sub: Schema, ms: seq<Message>, visit: Visit, j: int)
    requires ListPlaced(s0, now, i, end, num, sub, ms, visit, j)
    ensures ValidSchema(sub) && Fair(visit) && forall i :: 0 <= i < |ms| ==> Typed(sub, ms[i])
  {
  }

  /** There is room for the message in front of those in place. */
  lemma ListRoom(
    s0: Bytes, now: Bytes, i: int, end: int, num: nat, sub: Schema, ms: seq<Message>, visit: Visit, j: int)
    requires 0 < j && ListPlaced(s0, now, i, end, num, sub, ms, visit, j)
    ensures 0 <= i && |LenRecord(num, Marshal(sub, ms[j - 1], visit))| <= i <= |now| == |s0| < TWO63
    ensures Size(sub, ms[j - 1], visit) <= i
  {
    hide EncodeFrom, SizeFrom, LenRecord, Filled, EncodeMessages, Typed, ValidSchema;
    MessagesSuffix(num, sub, ms, j - 1, visit);
    FilledLength(s0, now, i, end, EncodeMessages(num, sub, ms[j..], visit));
    SizeIsLength(sub, ms[j - 1], visit);
    LenRecordLength(num, Marshal(sub, ms[j - 1], visit));
  }

  /** One more message has been written, with its length and tag, in front of those in place. */
  lemma ListNext(
    s0: Bytes, s1: Bytes, now: Bytes, i: int, i': int, end: int,
    num: nat, sub: Schema, ms: seq<Message>, visit: Visit, j: int)
    requires 0 < j && ListPlaced(s0, s1, i, end, num, sub, ms, visit, j)
    requires Filled(s1, now, i', i, LenRecord(num, Marshal(sub, ms[j - 1], visit)))
    ensures ListPlaced(s0, now, i', end, num, sub, ms, visit, j - 1)
  {
    hide EncodeFrom, LenRecord, Filled, EncodeMessages, Typed, ValidSchema;
    MessagesSuffix(num, sub, ms, j - 1, visit);
    FilledTwice(s0, s1, now, i', i, end, LenRecord(num, Marshal(sub, ms[j - 1], visit)),
                EncodeMessages(num, sub, ms[j..], visit));
  }

  /** All messages of the list are in place. */
  lemma ListEnds(
    w: Job, s0: Bytes, now: Bytes, i: int, end: int, k: nat, num: nat, sub: Schema, ms: seq<Message>)
    requires k < |w.sc.fields| && Placed(w, s0, end, k + 1)
    requires ListPlaced(s0, now, i, end, num, sub, ms, w.visit, 0)
    requires FieldBytes(w, k) == EncodeMessages(num, sub, ms, w.visit)
    ensures Placed(w, now, i, k)
  {
    hide EncodeMessages, Filled, EncodeFrom;
    assert ms[0..] == ms;
    PlacedField(w, s0, now, i, end, k);
  }
}
