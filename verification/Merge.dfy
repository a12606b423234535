/**
  Decoding a concatenation is decoding its parts one after the other into the same message; unknown
  fields in between do not matter.
 */
module Merge {
  import opened Bits
  import opened Decoder
  import opened Errors
  import opened Schemas
  import opened Skipper
  import opened Tags
  import opened Varints

  // ---------------------------------------------------------------- more input behind a record

  lemma DelimitedExtends(base: nat, s: Bytes, t: Bytes)
    requires Delimited(base, s).err == Nil
    ensures Delimited(base, s + t) == Delimited(base, s)
    ensures Payload(s + t, Delimited(base, s)) == Payload(s, Delimited(base, s))
  {
    ReadExtends(s, t, 0);
  }

  lemma SkipUnknownExtends(base: nat, s: Bytes, t: Bytes, limit: int)
    requires limit <= |s| && SkipUnknown(base, s, limit).err == Nil
    ensures SkipUnknown(base, s + t, limit) == SkipUnknown(base, s, limit)
    ensures SkipUnknown(base, s + t, |s + t|) == SkipUnknown(base, s, limit)
  {
    SkipExtends(s, t, 0, 0);
  }

  lemma EntryFieldExtends(base: nat, s: Bytes, t: Bytes, room: int, key: Bytes, value: int32)
    requires room <= |s| && DecodeEntryField(base, s, room, key, value).err == Nil
    ensures DecodeEntryField(base, s + t, room, key, value) == DecodeEntryField(base, s, room, key, value)
  {
    hide ReadVarint, FieldNumber, Delimited, OrInto, SkipUnknown, Payload;
    var tag := ReadVarint(s);
    ReadExtends(s, t, 0);
    var rest := s[tag.n..];
    assert (s + t)[tag.n..] == rest + t;
    if FieldNumber(tag.value) == 1 {
      DelimitedExtends(base + tag.n, rest, t);
    } else if FieldNumber(tag.value) == 2 {
      ReadExtends(rest, t, 0);
    } else {
      SkipUnknownExtends(base, s, t, room);
    }
  }

  lemma {:induction false} ReadEntryExtends(base: nat, s: Bytes, t: Bytes, room: int, key: Bytes, value: int32)
    requires room <= |s| && ReadEntry(base, s, room, key, value).err == Nil
    ensures ReadEntry(base, s + t, room, key, value) == ReadEntry(base, s, room, key, value)
    decreases |s|
  {
    hide DecodeEntryField;
    if room > 0 {
      var st := DecodeEntryField(base, s, room, key, value);
      EntryFieldExtends(base, s, t, room, key, value);
      ReadEntryExtends(base + st.n, s[st.n..], t, room - st.n, st.key, st.value);
      assert (s + t)[st.n..] == s[st.n..] + t;
    }
  }

  lemma FieldExtends(k: Kind, v: Value, wireType: nat, base: nat, s: Bytes, t: Bytes)
    requires TypedValue(k, v) && DecodeField(k, v, wireType, base, s).err == Nil
    ensures DecodeField(k, v, wireType, base, s + t) == DecodeField(k, v, wireType, base, s)
  {
    hide ReadVarint, Delimited, OrInto, ReadEntry, Typed, Decode;
    if k.KBool? || k.KInt32? {
      ReadExtends(s, t, 0);
    } else {
      var c := Delimited(base, s);
      DelimitedExtends(base, s, t);
      if k.KMap? {
        ReadEntryExtends(base + c.head, s[c.head..], t, c.len, [], 0);
        assert (s + t)[c.head..] == s[c.head..] + t;
      }
    }
  }

  lemma RecordExtends(sc: Schema, m: Message, base: nat, s: Bytes, t: Bytes)
    requires Typed(sc, m) && s != [] && DecodeRecord(sc, m, base, s).err == Nil
    ensures DecodeRecord(sc, m, base, s + t) == DecodeRecord(sc, m, base, s)
  {
    hide ReadVarint, FieldNumber, SkipUnknown, DecodeField;
    var tag := ReadVarint(s);
    ReadExtends(s, t, 0);
    assert (s + t)[tag.n..] == s[tag.n..] + t;
    var i := Find(sc, FieldNumber(tag.value));
    if i < 0 {
      SkipUnknownExtends(base, s, t, |s|);
    } else {
      FieldExtends(sc.fields[i].kind, m[i], WireType(tag.value), base + tag.n, s[tag.n..], t);
    }
  }

  /** The loop over `a + b` passes through the state that the loop over `a` ends in. */
  lemma {:induction false} DecodeConcat(sc: Schema, m: Message, base: nat, a: Bytes, b: Bytes)
    requires Typed(sc, m) && Decode(sc, m, base, a).err == Nil
    ensures Decode(sc, m, base, a + b) == Decode(sc, Decode(sc, m, base, a).m, base + |a|, b)
    decreases |a|
  {
    hide Typed, DecodeRecord;
    if a == [] {
      assert a + b == b;
    } else {
      var st := DecodeRecord(sc, m, base, a);
      RecordExtends(sc, m, base, a, b);
      DecodeConcat(sc, st.m, base + st.n, a[st.n..], b);
      assert (a + b)[st.n..] == a[st.n..] + b;
    }
  }

  // ---------------------------------------------------------------- the same input further on

  /**
    What an error becomes when the length or skip that causes it ends at index `end`: an index beyond
    the input that is also beyond the range of a 64-bit integer is an invalid length.
   */
  function Shifted(e: Error, end: nat): Error {
    if e == UnexpectedEOF && end >= TWO63 then InvalidLength else e
  }

  /** The end that a length announces, counted from the start of `s`. */
  function DelimitedEnd(s: Bytes): nat {
    var r := ReadVarint(s);
    if r.err == Nil && ToInt64(Wrap64(r.value)) >= 0 then r.n + ToInt64(Wrap64(r.value)) else 0
  }

  /** The end that a skip announces. */
  function SkipEnd(s: Bytes): nat {
    if SkipField(s).err == Nil then SkipField(s).n else 0
  }

  function EntryFieldEnd(s: Bytes): nat {
    var tag := ReadVarint(s);
    if tag.err != Nil || FieldNumber(tag.value) == 2 then 0
    else if FieldNumber(tag.value) == 1 then tag.n + DelimitedEnd(s[tag.n..])
    else SkipEnd(s)
  }

  /** The end announced where the loop over a map entry stops. */
  function EntryEnd(base: nat, s: Bytes, room: int, key: Bytes, value: int32): nat
    requires room <= |s|
    decreases |s|
  {
    if room <= 0 then 0 else
    var st := DecodeEntryField(base, s, room, key, value);
    if st.err != Nil then EntryFieldEnd(s)
    else st.n + EntryEnd(base + st.n, s[st.n..], room - st.n, st.key, st.value)
  }

  /** A nested message is decoded with indices of its own, so nothing is announced for it. */
  function FieldEnd(k: Kind, wireType: nat, base: nat, s: Bytes): nat {
    if wireType != ExpectedWireType(k) || k.KBool? || k.KInt32? then 0 else
    var c := Delimited(base, s);
    if c.err != Nil then DelimitedEnd(s)
    else if k.KMap? then c.head + EntryEnd(base + c.head, s[c.head..], c.len, [], 0)
    else 0
  }

  ghost function RecordEnd(sc: Schema, base: nat, s: Bytes): nat {
    var tag := ReadVarint(s);
    var i := Find(sc, FieldNumber(tag.value));
    if tag.err != Nil || WireType(tag.value) == 4 || FieldNumber(tag.value) <= 0 then 0
    else if i < 0 then SkipEnd(s)
    else tag.n + FieldEnd(sc.fields[i].kind, WireType(tag.value), base + tag.n, s[tag.n..])
  }

  /**
    The index, counted from the start of `s`, that is announced by the length or the skip at which the
    loop of `Unmarshal` stops. When it stops for another reason, this is an index within `s`.
   */
  ghost function Announced(sc: Schema, m: Message, base: nat, s: Bytes): nat
    requires Typed(sc, m)
    decreases |s|
  {
    if s == [] then 0 else
    var st := DecodeRecord(sc, m, base, s);
    if st.err != Nil then RecordEnd(sc, base, s)
    else st.n + Announced(sc, st.m, base + st.n, s[st.n..])
  }

  lemma DelimitedShift(base: nat, shift: nat, s: Bytes)
    requires base + shift + |s| < TWO63
    ensures var c, c' := Delimited(base, s), Delimited(base + shift, s);
            && c'.err == Shifted(c.err, base + shift + DelimitedEnd(s))
            && c'.head == c.head && c'.len == c.len
  {
    hide ReadVarint;
  }

  lemma SkipUnknownShift(base: nat, shift: nat, s: Bytes, limit: int)
    requires base + shift + limit < TWO63 && base + shift + |s| < TWO63
    ensures var k, k' := SkipUnknown(base, s, limit), SkipUnknown(base + shift, s, limit);
            && k'.err == Shifted(k.err, base + shift + SkipEnd(s))
            && k'.n == k.n
  {
    hide SkipField;
  }

  lemma EntryFieldShift(base: nat, shift: nat, s: Bytes, room: int, key: Bytes, value: int32)
    requires room <= |s| && base + shift + |s| < TWO63
    ensures var st := DecodeEntryField(base, s, room, key, value);
            DecodeEntryField(base + shift, s, room, key, value)
            == st.(err := Shifted(st.err, base + shift + EntryFieldEnd(s)))
  {
    hide ReadVarint, FieldNumber, Delimited, OrInto, SkipUnknown, Payload, DelimitedEnd, SkipEnd;
    var tag := ReadVarint(s);
    SkipUnknownShift(base, shift, s, room);
    if tag.err == Nil {
      DelimitedShift(base + tag.n, shift, s[tag.n..]);
    }
  }

  lemma {:induction false} EntryShift(base: nat, shift: nat, s: Bytes, room: int, key: Bytes, value: int32)
    requires room <= |s| && base + shift + |s| < TWO63
    ensures var e := ReadEntry(base, s, room, key, value);
            ReadEntry(base + shift, s, room, key, value)
            == e.(err := Shifted(e.err, base + shift + EntryEnd(base, s, room, key, value)))
    decreases |s|
  {
    hide DecodeEntryField, EntryFieldEnd;
    if room > 0 {
      EntryFieldShift(base, shift, s, room, key, value);
      var st := DecodeEntryField(base, s, room, key, value);
      if st.err == Nil {
        EntryShift(base + st.n, shift, s[st.n..], room - st.n, st.key, st.value);
      }
    }
  }

  lemma FieldShift(k: Kind, v: Value, wireType: nat, base: nat, shift: nat, s: Bytes)
    requires TypedValue(k, v) && base + shift + |s| < TWO63
    ensures var st := DecodeField(k, v, wireType, base, s);
            DecodeField(k, v, wireType, base + shift, s)
            == st.(err := Shifted(st.err, base + shift + FieldEnd(k, wireType, base, s)))
  {
    hide ReadVarint, Delimited, OrInto, ReadEntry, Typed, Decode, DelimitedEnd, EntryEnd;
    if wireType == 2 && !k.KBool? && !k.KInt32? {
      var c := Delimited(base, s);
      DelimitedShift(base, shift, s);
      if k.KMap? && c.err == Nil {
        EntryShift(base + c.head, shift, s[c.head..], c.len, [], 0);
      }
    }
  }

  lemma RecordShift(sc: Schema, m: Message, base: nat, shift: nat, s: Bytes)
    requires Typed(sc, m) && s != [] && base + shift + |s| < TWO63
    ensures var st := DecodeRecord(sc, m, base, s);
            DecodeRecord(sc, m, base + shift, s)
            == st.(err := Shifted(st.err, base + shift + RecordEnd(sc, base, s)))
  {
    hide ReadVarint, FieldNumber, SkipUnknown, DecodeField, SkipEnd, FieldEnd;
    var tag := ReadVarint(s);
    SkipUnknownShift(base, shift, s, |s|);
    if tag.err == Nil {
      var i := Find(sc, FieldNumber(tag.value));
      if i >= 0 {
        FieldShift(sc.fields[i].kind, m[i], WireType(tag.value), base + tag.n, shift, s[tag.n..]);
      }
    }
  }

  /**
    The index the loop starts from affects nothing but one error, and that exactly when the end
    announced where the loop stops is beyond the range of a 64-bit integer.
   */
  lemma {:induction false} DecodeShift(sc: Schema, m: Message, base: nat, shift: nat, s: Bytes)
    requires Typed(sc, m) && base + shift + |s| < TWO63
    ensures var o := Decode(sc, m, base, s);
            Decode(sc, m, base + shift, s)
            == o.(err := Shifted(o.err, base + shift + Announced(sc, m, base, s)))
    decreases |s|
  {
    hide Typed, DecodeRecord, RecordEnd;
    if s != [] {
      RecordShift(sc, m, base, shift, s);
      var st := DecodeRecord(sc, m, base, s);
      if st.err == Nil {
        DecodeShift(sc, st.m, base + st.n, shift, s[st.n..]);
      }
    }
  }

  // ---------------------------------------------------------------- main results

  /**
    Concatenation is merge: when `a` is accepted, unmarshalling `a + b` leaves the message that
    unmarshalling `a` and then `b` leaves, and returns the same error; only an unexpected end of
    input becomes an invalid length, exactly when the end announced in `b`, moved by the length of `a`,
    is beyond the range of a 64-bit integer.
   */
  lemma ConcatenationIsMerge(sc: Schema, m: Message, a: Bytes, b: Bytes)
    requires Typed(sc, m) && |a + b| < TWO63 && Unmarshal(sc, m, a).err == Nil
    ensures var m' := Unmarshal(sc, m, a).m;
            var after := Unmarshal(sc, m', b);
            Unmarshal(sc, m, a + b)
            == Outcome(after.m, Shifted(after.err, |a| + Announced(sc, m', 0, b)))
  {
    hide Decode, Typed, Announced;
    DecodeConcat(sc, m, 0, a, b);
    DecodeShift(sc, Unmarshal(sc, m, a).m, 0, |a|, b);
  }

  /** The tag of a wire field. */
  function TagOf(f: WireField): nat {
    ReadVarint(if f.Scalar? then f.tag else f.open).value
  }

  /** A tag whose number is positive, as an int32, and not in the schema. */
  ghost predicate Unknown(sc: Schema, tag: nat) {
    1 <= Number(tag) < 0x8000_0000 && forall i :: 0 <= i < |sc.fields| ==> sc.fields[i].num != Number(tag)
  }

  lemma UnknownNotFound(sc: Schema, tag: nat)
    ensures Unknown(sc, tag) <==> FieldNumber(tag) > 0 && Find(sc, FieldNumber(tag)) < 0
  {
    hide FieldNumber;
    NumberRead(tag);
  }

  /** For instance, the tag of every number that is not in the schema, with every wire type. */
  lemma NumberUnknown(sc: Schema, num: nat, wireType: nat)
    requires 1 <= num < 0x2000_0000 && wireType < 8
    ensures Unknown(sc, num * 8 + wireType) <==> forall i :: 0 <= i < |sc.fields| ==> sc.fields[i].num != num
  {
    TagRead(num, wireType);
  }

  lemma TagInFront(f: WireField, rest: Bytes)
    requires WellFormed(f)
    ensures ReadVarint(Unparse(f) + rest).err == Nil
    ensures ReadVarint(Unparse(f) + rest).value == TagOf(f)
    ensures WireType(TagOf(f)) != 4 && Unparse(f) != []
  {
    match f
    case Scalar(tag, payload) =>
      assert Unparse(f) + rest == tag + (payload + rest);
      ReadExtends(tag, payload + rest, 0);
    case Group(open, body, close) =>
      assert Unparse(f) + rest == open + (UnparseAll(body) + close + rest);
      ReadExtends(open, UnparseAll(body) + close + rest, 0);
  }

  /** A well-formed field that is not in the schema is passed over. */
  lemma RecordUnknown(sc: Schema, m: Message, base: nat, f: WireField, rest: Bytes)
    requires Typed(sc, m) && WellFormed(f) && Unknown(sc, TagOf(f)) && base + |Unparse(f)| < TWO63
    ensures Unparse(f) != []
    ensures DecodeRecord(sc, m, base, Unparse(f) + rest) == Step(m, |Unparse(f)|, Nil)
  {
    hide ReadVarint, FieldNumber, WellFormed, SkipFrom, DecodeField, Typed, Unparse, Unknown;
    TagInFront(f, rest);
    UnknownNotFound(sc, TagOf(f));
    SkipsField(f, rest, 0, 0);
  }

  lemma DecodeUnknown(sc: Schema, m: Message, base: nat, f: WireField)
    requires Typed(sc, m) && WellFormed(f) && Unknown(sc, TagOf(f)) && base + |Unparse(f)| < TWO63
    ensures Decode(sc, m, base, Unparse(f)) == Outcome(m, Nil)
  {
    hide DecodeRecord, WellFormed, Unparse, Unknown, Typed;
    RecordUnknown(sc, m, base, f, []);
    assert Unparse(f) + [] == Unparse(f);
    assert Unparse(f)[|Unparse(f)|..] == [];
  }

  /**
    At an unknown field number, the input is accepted up to the next record if and only if it starts
    with a field of the grammar.
   */
  lemma UnknownIsGrammar(sc: Schema, m: Message, base: nat, s: Bytes)
    requires Typed(sc, m) && s != [] && base + |s| < TWO63
    requires ReadVarint(s).err == Nil && Unknown(sc, ReadVarint(s).value) && WireType(ReadVarint(s).value) != 4
    ensures DecodeRecord(sc, m, base, s).err == Nil <==> exists f :: WellFormed(f) && Unparse(f) <= s
  {
    hide ReadVarint, FieldNumber, WellFormed, DecodeField, SkipFrom, Typed, Unparse, Unknown;
    UnknownNotFound(sc, ReadVarint(s).value);
    var st := DecodeRecord(sc, m, base, s);
    if st.err == Nil {
      var f := ParseField(s);
      assert Unparse(f) <= s;
    }
    forall f | WellFormed(f) && Unparse(f) <= s
      ensures st.err == Nil
    {
      SkipsField(f, s[|Unparse(f)|..], 0, 0);
      assert s == Unparse(f) + s[|Unparse(f)|..];
    }
  }

  /**
    Unknown fields are transparent: inserting a well-formed field (a group with its nested fields
    included) whose number is not in the schema behind an accepted prefix changes neither the decoded
    message nor whether the input is accepted, and the error only as a shift by its length does.
   */
  lemma UnknownIsTransparent(sc: Schema, m: Message, a: Bytes, f: WireField, b: Bytes)
    requires Typed(sc, m) && Unmarshal(sc, m, a).err == Nil
    requires WellFormed(f) && Unknown(sc, TagOf(f)) && |a + Unparse(f) + b| < TWO63
    ensures var m' := Unmarshal(sc, m, a).m;
            var without := Unmarshal(sc, m, a + b);
            var end := |a| + |Unparse(f)| + Announced(sc, m', |a|, b);
            Unmarshal(sc, m, a + Unparse(f) + b) == Outcome(without.m, Shifted(without.err, end))
  {
    hide WellFormed, Unparse, Unknown, Typed, Decode, Announced, TagOf, DecodeRecord;
    var u := Unparse(f);
    var after := Unmarshal(sc, m, a).m;
    DecodeConcat(sc, m, 0, a, b);
    DecodeConcat(sc, m, 0, a, u);
    DecodeUnknown(sc, after, |a|, f);
    DecodeConcat(sc, m, 0, a + u, b);
    DecodeShift(sc, after, |a|, |u|, b);
    assert |a + u| == |a| + |u|;
  }
}
