/**
  Re-encoding: when writing back what was decoded takes no more bytes than were read, and when it
  does.
 */
module Canonical {
  import opened Bits
  import opened Decoder
  import opened Encoder
  import opened Errors
  import opened Evolution
  import opened Schemas
  import opened Skipper
  import opened Varints

  /** No embedded message: nothing is emitted for a zero value. */
  ghost predicate NoEmbedded(s: Schema) {
    forall i :: 0 <= i < |s.fields| ==> !s.fields[i].kind.KMessage?
  }

  /**
    Built of strings, bools, embedded messages, and lists of strings or messages that are empty
    when they are zero.
   */
  ghost predicate Compact(s: Schema)
    decreases s
  {
    forall i :: 0 <= i < |s.fields| ==> CompactKind(s.fields[i].kind)
  }

  ghost predicate CompactKind(k: Kind)
    decreases k
  {
    match k
    case KString => true
    case KBool => true
    case KStrings => true
    case KMessage(sub) => Compact(sub)
    case KMessages(sub) => Compact(sub) && NoEmbedded(sub)
    case KInt32 => false
    case KMap => false
  }

  // ---------------------------------------------------------------- sizes

  lemma SovMonotone(a: nat, b: nat)
    requires a <= b
    ensures 1 <= Sov(a) <= Sov(b)
  {
    hide Sov, Pow2;
    SovIsLength(a);
    SovIsLength(b);
    SovBound(b, Sov(b));
    SovBound(a, Sov(b));
  }

  lemma SovSum(a: nat, b: nat)
    ensures Sov(a + b) <= Sov(a) + Sov(b)
  {
    hide Sov, Pow2;
    SovIsLength(a);
    SovIsLength(b);
    var i, j := Sov(a), Sov(b);
    SovBound(a, i);
    SovBound(b, j);
    Pow2Monotone(7 * i, 7 * (i + j) - 1);
    Pow2Monotone(7 * j, 7 * (i + j) - 1);
    Pow2Twice(7 * (i + j) - 1);
    SovBound(a + b, i + j);
  }

  /** A length prefix grows by at most the size of the prefix of what is added. */
  lemma LenSizeSum(l: nat, l': nat, n: nat)
    requires l' <= l + n
    ensures LenSize(l') <= LenSize(l) + LenSize(n)
  {
    hide Sov;
    SovMonotone(l', l + n);
    SovSum(l, n);
  }

  lemma {:induction false} StringsSizeAppend(strs: seq<Bytes>, str: Bytes)
    ensures StringsSize(strs + [str]) == StringsSize(strs) + LenSize(|str|)
  {
    hide LenSize;
    if strs == [] {
      assert strs + [str] == [str] && [str][1..] == [];
    } else {
      assert (strs + [str])[1..] == strs[1..] + [str];
      StringsSizeAppend(strs[1..], str);
    }
  }

  lemma {:induction false} MessagesSizeAppend(sub: Schema, ms: seq<Message>, m: Message, visit: Visit)
    requires Fair(visit) && Typed(sub, m) && forall i :: 0 <= i < |ms| ==> Typed(sub, ms[i])
    ensures MessagesSize(sub, ms + [m], visit) == MessagesSize(sub, ms, visit) + LenSize(SizeFrom(sub, m, 0, visit))
    decreases |ms|
  {
    hide LenSize, Typed, SizeFrom;
    if ms == [] {
      assert ms + [m] == [m] && [m][1..] == [];
    } else {
      assert (ms + [m])[1..] == ms[1..] + [m];
      MessagesSizeAppend(sub, ms[1..], m, visit);
    }
  }

  lemma SizeOfEmptyField(k: Kind, visit: Visit)
    requires !k.KMessage? && Fair(visit)
    ensures FieldSize(k, EmptyValue(k), visit) == 0
  {
    if k.KMap? {
      var none: map<Bytes, int32> := map[];
      assert IsOrder(visit(none), none);
      assert visit(none) == [];
      assert EmptyValue(k) == VMap(none);
    }
  }

  lemma {:induction false} SizeOfEmpty(s: Schema, i: nat, visit: Visit)
    requires NoEmbedded(s) && Fair(visit) && i <= |s.fields|
    ensures SizeFrom(s, Empty(s), i, visit) == 0
    decreases |s.fields| - i
  {
    hide FieldSize;
    if i < |s.fields| {
      SizeOfEmptyField(s.fields[i].kind, visit);
      SizeOfEmpty(s, i + 1, visit);
    }
  }

  /** Assigning one field changes the size by the difference of its sizes. */
  lemma {:induction false} SizeOfUpdate(s: Schema, m: Message, i: nat, v: Value, n: nat, visit: Visit)
    requires Typed(s, m) && Fair(visit) && i < |s.fields| && n <= |s.fields|
    requires TypedValue(s.fields[i].kind, v)
    ensures SizeFrom(s, m[i := v], n, visit) + (if n <= i then FieldSize(s.fields[i].kind, m[i], visit) else 0)
            == SizeFrom(s, m, n, visit) + (if n <= i then FieldSize(s.fields[i].kind, v, visit) else 0)
    decreases |s.fields| - n
  {
    hide FieldSize;
    if n < |s.fields| {
      SizeOfUpdate(s, m, i, v, n + 1, visit);
    }
  }

  // ---------------------------------------------------------------- growth

  /** A length-delimited record is at least as long as its canonical form. */
  lemma ChunkSize(base: nat, s: Bytes)
    requires Delimited(base, s).err == Nil
    ensures var c := Delimited(base, s); LenSize(c.len) <= 1 + c.head + c.len
  {
    hide Sov, ReadVarint;
    Minimal(s);
  }

  lemma {:induction false} FieldGrowth(k: Kind, v: Value, wireType: nat, base: nat, s: Bytes, visit: Visit)
    requires TypedValue(k, v) && CompactKind(k) && Fair(visit)
    requires DecodeField(k, v, wireType, base, s).err == Nil
    ensures var st := DecodeField(k, v, wireType, base, s);
            FieldSize(k, st.v, visit) <= FieldSize(k, v, visit) + 1 + st.n
    decreases |s|, 1
  {
    hide ReadVarint, Delimited, LenSize, Typed, Compact, NoEmbedded, ReadEntry;
    if !k.KBool? {
      var c := Delimited(base, s);
      var payload := Payload(s, c);
      ChunkSize(base, s);
      match k
      case KString =>
      case KStrings => StringsSizeAppend(v.strs, payload);
      case KMessage(sub) =>
        Growth(sub, v.m, 0, payload, visit);
        var after := Decode(sub, v.m, 0, payload).m;
        LenSizeSum(SizeFrom(sub, v.m, 0, visit), SizeFrom(sub, after, 0, visit), c.len);
      case KMessages(sub) =>
        Growth(sub, Empty(sub), 0, payload, visit);
        SizeOfEmpty(sub, 0, visit);
        var after := Decode(sub, Empty(sub), 0, payload).m;
        LenSizeMonotone(SizeFrom(sub, after, 0, visit), c.len);
        MessagesSizeAppend(sub, v.ms, after, visit);
    }
  }

  lemma LenSizeMonotone(a: nat, b: nat)
    requires a <= b
    ensures LenSize(a) <= LenSize(b)
  {
    hide Sov;
    SovMonotone(a, b);
  }

  lemma RecordGrowth(s: Schema, m: Message, base: nat, d: Bytes, visit: Visit)
    requires Typed(s, m) && Compact(s) && Fair(visit) && d != []
    requires DecodeRecord(s, m, base, d).err == Nil
    ensures var st := DecodeRecord(s, m, base, d);
            SizeFrom(s, st.m, 0, visit) <= SizeFrom(s, m, 0, visit) + st.n
    decreases |d|, 2
  {
    hide ReadVarint, DecodeField, SizeFrom, FieldSize, FieldNumber;
    var tag := ReadVarint(d);
    var i := Find(s, FieldNumber(tag.value));
    if i >= 0 {
      var wireType, rest := WireType(tag.value), d[tag.n..];
      var f := DecodeField(s.fields[i].kind, m[i], wireType, base + tag.n, rest);
      FieldGrowth(s.fields[i].kind, m[i], wireType, base + tag.n, rest, visit);
      SizeOfUpdate(s, m, i, f.v, 0, visit);
    }
  }

  lemma {:induction false} Growth(s: Schema, m: Message, base: nat, d: Bytes, visit: Visit)
    requires Typed(s, m) && Compact(s) && Fair(visit) && Decode(s, m, base, d).err == Nil
    ensures SizeFrom(s, Decode(s, m, base, d).m, 0, visit) <= SizeFrom(s, m, 0, visit) + |d|
    decreases |d|, 3
  {
    hide DecodeRecord, Typed, Compact, SizeFrom;
    if d != [] {
      var st := DecodeRecord(s, m, base, d);
      RecordGrowth(s, m, base, d, visit);
      Growth(s, st.m, base + st.n, d[st.n..], visit);
    }
  }

  // ---------------------------------------------------------------- main results

  /** Re-encoding never grows. */
  lemma ReencodingNeverGrows(s: Schema, m: Message, d: Bytes, visit: Visit)
    requires ValidSchema(s) && Typed(s, m) && Compact(s) && Fair(visit)
    requires Unmarshal(s, m, d).err == Nil
    ensures |Marshal(s, Unmarshal(s, m, d).m, visit)| <= |Marshal(s, m, visit)| + |d|
  {
    hide Decode, SizeFrom, EncodeFrom;
    Growth(s, m, 0, d, visit);
    SizeIsLength(s, m, visit);
    SizeIsLength(s, Unmarshal(s, m, d).m, visit);
  }

  /**
    Writing back what was decoded keeps its meaning and gives a shortest encoding that is accepted.
   */
  lemma CanonicalIsShortest(s: Schema, m: Message, d: Bytes, visit: Visit)
    requires ValidSchema(s) && Typed(s, m) && Compact(s) && NoEmbedded(s) && Fair(visit)
    requires |d| < TWO63 && Unmarshal(s, Empty(s), d) == Outcome(m, Nil)
    ensures |Marshal(s, m, visit)| <= |d|
    ensures Unmarshal(s, Empty(s), Marshal(s, m, visit)) == Unmarshal(s, Empty(s), d)
  {
    hide Decode, SizeFrom, EncodeFrom;
    ReencodingNeverGrows(s, Empty(s), d, visit);
    SizeIsLength(s, Empty(s), visit);
    SizeOfEmpty(s, 0, visit);
    RoundTrip(s, m, visit);
  }

  // ---------------------------------------------------------------- the condition is needed

  /** Writing back never takes more bytes than before and the input together. */
  ghost predicate NeverGrows(s: Schema, visit: Visit)
    requires Fair(visit)
  {
    forall m, d | Typed(s, m) && Unmarshal(s, m, d).err == Nil ::
      Size(s, Unmarshal(s, m, d).m, visit) <= Size(s, m, visit) + |d|
  }

  /** The input `d` is read as `m`, and `m` is too large. */
  ghost predicate Grows(s: Schema, d: Bytes, m: Message, visit: Visit)
    requires Fair(visit)
  {
    && Typed(s, m) && Unmarshal(s, Empty(s), d) == Outcome(m, Nil)
    && Size(s, m, visit) > Size(s, Empty(s), visit) + |d|
  }

  /** Five bytes make an int32 field negative; writing it takes ten. */
  lemma Int32Grows(s: Schema, j: nat, visit: Visit)
    requires ValidSchema(s) && Fair(visit) && j < |s.fields| && s.fields[j].kind.KInt32?
    ensures var d := VarintRecord(s.fields[j].num, 0xFFFF_FFFF);
            |d| <= 6 && Grows(s, d, Empty(s)[j := VInt32(-1)], visit)
  {
    hide Decode, SizeFrom, Sov, Varint;
    DecodeVarintRecord(s, Empty(s), 0, j, 0xFFFF_FFFF);
    VarintLimit();
    ExtendedLength(-1);
    assert Empty(s)[j] == EmptyValue(KInt32);
    SizeOfUpdate(s, Empty(s), j, VInt32(-1), 0, visit);
  }

  lemma VarintLimit()
    ensures |Varint(0xFFFF_FFFF)| == 5
  {
  }

  /** An empty map entry of two bytes is written back with an explicit key and value. */
  lemma MapGrows(s: Schema, j: nat, visit: Visit)
    requires ValidSchema(s) && Fair(visit) && j < |s.fields| && s.fields[j].kind.KMap?
    ensures var d := LenRecord(s.fields[j].num, []);
            |d| == 2 && Grows(s, d, Empty(s)[j := VMap(map[[] := 0])], visit)
  {
    hide Decode, SizeFrom, Sov, Varint;
    var one: map<Bytes, int32> := map[[] := 0];
    NoBytes();
    DecodeLenRecord(s, Empty(s), 0, j, []);
    var none: map<Bytes, int32> := map[];
    assert none[[] := 0] == one;
    assert Empty(s)[j] == EmptyValue(KMap);
    SizeOfEmptyField(KMap, visit);
    SizeOfUpdate(s, Empty(s), j, VMap(one), 0, visit);
    assert IsOrder(visit(one), one);
    assert visit(one) == [[]] by {
      assert visit(one)[0] in visit(one);
    }
    SovMonotone(0, EntrySize([], 0));
  }

  lemma NoBytes()
    ensures Varint(0) == [0]
  {
  }

  lemma {:induction false} EmbeddedHasSize(s: Schema, i: nat, j: nat, visit: Visit)
    requires Fair(visit) && i <= j < |s.fields| && s.fields[j].kind.KMessage?
    ensures SizeFrom(s, Empty(s), i, visit) >= 1
    decreases j - i
  {
    if i < j {
      EmbeddedHasSize(s, i + 1, j, visit);
    }
  }

  /**
    Growth is passed on through lists: as an element, `m` starts from nothing, and the length in front
    of the bytes that are written back is no shorter than the one in front of `d`.
   */
  lemma ListGrows(s: Schema, j: nat, d: Bytes, m: Message, visit: Visit)
    requires ValidSchema(s) && Fair(visit) && j < |s.fields| && s.fields[j].kind.KMessages?
    requires var sub := s.fields[j].kind.sub;
             && Typed(sub, m) && Unmarshal(sub, Empty(sub), d) == Outcome(m, Nil)
             && Size(sub, m, visit) > |d|
    requires |LenRecord(s.fields[j].num, d)| < TWO63
    ensures Grows(s, LenRecord(s.fields[j].num, d), Empty(s)[j := VMessages([m])], visit)
  {
    hide Decode, SizeFrom, Sov, Varint, Delimited;
    var sub := s.fields[j].kind.sub;
    MessageAppended(s, Empty(s), 0, j, d, m);
    LenRecordLength(s.fields[j].num, d);
    SovMonotone(|d|, Size(sub, m, visit));
    assert Empty(s)[j] == EmptyValue(s.fields[j].kind);
    assert [] + [m] == [m] && [m][1..] == [];
    SizeOfUpdate(s, Empty(s), j, VMessages([m]), 0, visit);
  }

  lemma DecodesNothing(s: Schema)
    ensures Unmarshal(s, Empty(s), []) == Outcome(Empty(s), Nil)
  {
  }

  /**
    An empty record of two bytes in a list of messages that embed another: the embedded message is
    written back although it was not there.
   */
  lemma ListOfEmbeddedGrows(s: Schema, j: nat, visit: Visit)
    requires ValidSchema(s) && Fair(visit) && j < |s.fields|
    requires s.fields[j].kind.KMessages? && !NoEmbedded(s.fields[j].kind.sub)
    ensures var d := LenRecord(s.fields[j].num, []);
            |d| == 2 && Grows(s, d, Empty(s)[j := VMessages([Empty(s.fields[j].kind.sub)])], visit)
  {
    hide Decode, SizeFrom, Sov, Varint;
    var sub := s.fields[j].kind.sub;
    NoBytes();
    DecodesNothing(sub);
    var e :| 0 <= e < |sub.fields| && sub.fields[e].kind.KMessage?;
    EmbeddedHasSize(sub, 0, e, visit);
    ListGrows(s, j, [], Empty(sub), visit);
  }

  /**
    Whatever is embedded is compact; lists hold messages of this form, nested at most `depth` deep.
    The messages in module CompanySchemas are of this form.
   */
  ghost predicate EmbedsCompact(s: Schema, depth: nat)
    decreases depth
  {
    forall i :: 0 <= i < |s.fields| ==>
      var k := s.fields[i].kind;
      && (k.KMessage? ==> Compact(k.sub))
      && (k.KMessages? ==> depth > 0 && EmbedsCompact(k.sub, depth - 1))
  }

  /** An input on which a schema of this form that is not compact grows. */
  lemma {:induction false} GrowthWitness(s: Schema, depth: nat, visit: Visit) returns (d: Bytes, m: Message)
    requires ValidSchema(s) && EmbedsCompact(s, depth) && !Compact(s) && Fair(visit)
    requires depth < 0x0800_0000_0000_0000
    ensures |d| <= 10 * depth + 6 && Grows(s, d, m, visit)
    decreases depth
  {
    hide Decode, SizeFrom, Size, Typed, VarintRecord, LenRecord;
    var j :| 0 <= j < |s.fields| && !CompactKind(s.fields[j].kind);
    match s.fields[j].kind
    case KInt32 =>
      Int32Grows(s, j, visit);
      d, m := VarintRecord(s.fields[j].num, 0xFFFF_FFFF), Empty(s)[j := VInt32(-1)];
    case KMap =>
      MapGrows(s, j, visit);
      d, m := LenRecord(s.fields[j].num, []), Empty(s)[j := VMap(map[[] := 0])];
    case KMessages(sub) =>
      if NoEmbedded(sub) {
        var d', m' := GrowthWitness(sub, depth - 1, visit);
        ListRecordLength(s.fields[j].num, d');
        ListGrows(s, j, d', m', visit);
        d, m := LenRecord(s.fields[j].num, d'), Empty(s)[j := VMessages([m'])];
      } else {
        ListOfEmbeddedGrows(s, j, visit);
        d, m := LenRecord(s.fields[j].num, []), Empty(s)[j := VMessages([Empty(sub)])];
      }
  }

  lemma ListRecordLength(num: nat, d: Bytes)
    requires 1 <= num <= 15 && |d| < TWO63
    ensures |LenRecord(num, d)| <= |d| + 10
  {
    hide Varint;
    VarintShort(|d|);
  }

  /**
    Among the schemas that embed only compact messages, re-encoding never grows exactly for the
    compact ones.
   */
  lemma NeverGrowsIffCompact(s: Schema, depth: nat, visit: Visit)
    requires ValidSchema(s) && EmbedsCompact(s, depth) && depth < 0x0800_0000_0000_0000 && Fair(visit)
    ensures NeverGrows(s, visit) <==> Compact(s)
  {
    hide Decode, SizeFrom, EmbedsCompact, Compact, Typed;
    if Compact(s) {
      forall m, d | Typed(s, m) && Unmarshal(s, m, d).err == Nil
        ensures Size(s, Unmarshal(s, m, d).m, visit) <= Size(s, m, visit) + |d|
      {
        Growth(s, m, 0, d, visit);
      }
    } else {
      var d, m := GrowthWitness(s, depth, visit);
      assert Typed(s, Empty(s)) && Unmarshal(s, Empty(s), d).err == Nil;
    }
  }
}
