/**
  Record boundaries. Without map fields, every boundary the loop passes ends an accepted prefix, so an
  unknown field may be inserted between any two records. A map entry may read beyond itself, and then
  neither holds.
 */
module Boundaries {
  import opened Bits
  import opened CompanySchemas
  import opened Decoder
  import opened Encoder
  import opened Errors
  import opened Evolution
  import opened Merge
  import opened Schemas
  import opened Skipper
  import opened Varints

  /** The loop of `Unmarshal` passes the index `k` between two records. */
  ghost predicate Boundary(sc: Schema, m: Message, base: nat, s: Bytes, k: nat): (b: bool)
    requires Typed(sc, m)
    ensures b ==> k <= |s|
    decreases |s|
  {
    || k == 0
    || (s != [] &&
        var st := DecodeRecord(sc, m, base, s);
        st.err == Nil && st.n <= k && Boundary(sc, st.m, base + st.n, s[st.n..], k - st.n))
  }

  // ---------------------------------------------------------------- a record on its own

  lemma DelimitedTruncates(base: nat, s: Bytes)
    requires Delimited(base, s).err == Nil
    ensures var c := Delimited(base, s);
            var t := s[..c.head + c.len];
            Delimited(base, t) == c && Payload(t, c) == Payload(s, c)
  {
    hide ReadVarint;
    var c := Delimited(base, s);
    var t := s[..c.head + c.len];
    ReadTruncates(s, 0);
    assert t == s[..c.head] + t[c.head..];
    ReadExtends(s[..c.head], t[c.head..], 0);
  }

  lemma SkipTruncates(base: nat, s: Bytes)
    requires |s| < TWO63 && SkipUnknown(base, s, |s|).err == Nil
    ensures var n := SkipUnknown(base, s, |s|).n;
            SkipUnknown(base, s[..n], n) == SkipUnknown(base, s, |s|)
  {
    hide SkipFrom, WellFormed, Unparse;
    var f := ParseField(s);
    var n := SkipUnknown(base, s, |s|).n;
    SkipsField(f, [], 0, 0);
    assert s[..n] + [] == s[..n];
  }

  lemma FieldTruncates(k: Kind, v: Value, wireType: nat, base: nat, s: Bytes)
    requires TypedValue(k, v) && !k.KMap? && DecodeField(k, v, wireType, base, s).err == Nil
    ensures var st := DecodeField(k, v, wireType, base, s);
            DecodeField(k, v, wireType, base, s[..st.n]) == st
  {
    hide ReadVarint, Delimited, OrInto, Typed, Decode;
    if k.KBool? || k.KInt32? {
      ReadTruncates(s, 0);
    } else {
      DelimitedTruncates(base, s);
    }
  }

  lemma RecordTruncates(sc: Schema, m: Message, base: nat, s: Bytes)
    requires Typed(sc, m) && NoMap(sc) && s != [] && |s| < TWO63 && DecodeRecord(sc, m, base, s).err == Nil
    ensures var st := DecodeRecord(sc, m, base, s);
            DecodeRecord(sc, m, base, s[..st.n]) == st
  {
    hide ReadVarint, FieldNumber, SkipUnknown, DecodeField;
    var st := DecodeRecord(sc, m, base, s);
    var tag := ReadVarint(s);
    var t := s[..st.n];
    var i := Find(sc, FieldNumber(tag.value));
    if i < 0 {
      SkipTruncates(base, s);
      var u := SkipUnknown(base, t, st.n);
      TagOfSkipped(base, s, st.n);
    } else {
      ReadTruncates(s, 0);
      assert t == s[..tag.n] + t[tag.n..];
      ReadExtends(s[..tag.n], t[tag.n..], 0);
      FieldTruncates(sc.fields[i].kind, m[i], WireType(tag.value), base + tag.n, s[tag.n..]);
      assert t[tag.n..] == s[tag.n..][..st.n - tag.n];
    }
  }

  /** What is skipped contains its tag. */
  lemma TagOfSkipped(base: nat, s: Bytes, n: nat)
    requires SkipUnknown(base, s, |s|) == Skipped(n, Nil)
    ensures ReadVarint(s[..n]) == ReadVarint(s)
  {
    hide WellFormed, SkipFrom, SkipUnknown, ReadVarint;
    var f := SkippedField(base, s, n);
    TagInFront(f, []);
    assert Unparse(f) + [] == s[..n];
    ReadExtends(s[..n], s[n..], 0);
    assert s[..n] + s[n..] == s;
  }

  lemma SkippedField(base: nat, s: Bytes, n: nat) returns (f: WireField)
    requires SkipUnknown(base, s, |s|) == Skipped(n, Nil)
    ensures n <= |s| && WellFormed(f) && Unparse(f) == s[..n]
  {
    hide WellFormed, SkipFrom, Unparse;
    f := ParseField(s);
  }

  /** Up to a boundary the input is accepted on its own. */
  lemma {:induction false} BoundaryAccepted(sc: Schema, m: Message, base: nat, s: Bytes, k: nat)
    requires Typed(sc, m) && NoMap(sc) && |s| < TWO63 && Boundary(sc, m, base, s, k)
    ensures k <= |s| && Decode(sc, m, base, s[..k]).err == Nil
    decreases |s|
  {
    hide DecodeRecord, Typed, NoMap;
    if k > 0 {
      var st := DecodeRecord(sc, m, base, s);
      var rest := s[st.n..];
      BoundaryAccepted(sc, st.m, base + st.n, rest, k - st.n);
      RecordTruncates(sc, m, base, s);
      assert s[..st.n][st.n..] == [];
      DecodeConcat(sc, m, base, s[..st.n], rest[..k - st.n]);
      assert s[..st.n] + rest[..k - st.n] == s[..k];
    }
  }

  /** The well-formed field `f`, unknown in `sc`, may stand between two records of the accepted input `d`. */
  ghost predicate Between(sc: Schema, m: Message, d: Bytes, k: nat, f: WireField): (b: bool)
    requires Typed(sc, m)
    ensures b ==> k <= |d|
  {
    && Unmarshal(sc, m, d).err == Nil && Boundary(sc, m, 0, d, k)
    && WellFormed(f) && Unknown(sc, TagOf(f)) && |d| + |Unparse(f)| < TWO63
  }

  /**
    Without map fields, a well-formed field with a number that is not in the schema can be inserted
    between any two records of accepted input: the decoded message stays the same.
   */
  lemma UnknownBetweenRecords(sc: Schema, m: Message, d: Bytes, k: nat, f: WireField)
    requires Typed(sc, m) && NoMap(sc) && Between(sc, m, d, k, f)
    ensures Unmarshal(sc, m, d[..k] + Unparse(f) + d[k..]) == Unmarshal(sc, m, d)
  {
    hide WellFormed, Unparse, Unknown, Typed, Decode, DecodeRecord, Boundary, NoMap, TagOf, Announced;
    BoundaryAccepted(sc, m, 0, d, k);
    assert d[..k] + d[k..] == d;
    UnknownIsTransparent(sc, m, d[..k], f, d[k..]);
  }

  // ---------------------------------------------------------------- entries that read beyond themselves

  /** A map entry of two bytes, of which the key of `len` bytes lies behind it. */
  function Overrun(num: nat, len: nat): Bytes
    requires 1 <= num <= 15 && len < 128
  {
    [num * 8 + 2, 0x02, 0x0a, len]
  }

  /** What the record consists of behind its tag, and what follows it. */
  function OverrunBody(key: Bytes, rest: Bytes): Bytes
    requires |key| < 128
  {
    [0x02, 0x0a, |key|] + (key + rest)
  }

  lemma OverrunEntry(base: nat, key: Bytes, rest: Bytes)
    requires |key| < 128 && base + 4 + |key| + |rest| < TWO63
    ensures var s := OverrunBody(key, rest);
            && Delimited(base, s) == Chunk(1, 2, Nil)
            && ReadEntry(base + 1, s[1..], 2, [], 0) == Entry(key, 0, Nil)
  {
    hide FieldNumber, ReadVarint, Varint, Payload, Delimited;
    var behind := [|key|] + key;
    var s := OverrunBody(key, rest);
    var t := s[1..];
    assert s == [0x02] + t && t == [0x0a] + (behind + rest);
    OneByteTag(0x02, t);
    assert Delimited(base, s) == Chunk(1, 2, Nil) by {
      OneByteDelimited(base, 2, t);
    }
    OneByteTag(0x0a, behind + rest);
    OneByteLength(|key|);
    LengthRead(base + 2, key);
    DelimitedExtends(base + 2, behind, rest);
    assert DecodeEntryField(base + 1, t, 2, [], 0) == EntryStep(key, 0, 2 + |key|, Nil);
  }

  lemma OneByteLength(len: nat)
    requires len < 128
    ensures Varint(len) == [len]
  {
  }

  lemma OneByteDelimited(base: nat, len: nat, rest: Bytes)
    requires len < 128 && len <= |rest| && base + 1 + |rest| < TWO63
    ensures Delimited(base, [len] + rest) == Chunk(1, len, Nil)
  {
    hide ReadVarint;
    OneByteTag(len, rest);
  }

  /** An empty message, up to one map entry with the value zero. */
  ghost function OneEntry(sc: Schema, j: nat, key: Bytes): (m: Message)
    requires j < |sc.fields| && sc.fields[j].kind.KMap?
    ensures Typed(sc, m)
  {
    Empty(sc)[j := VMap(map[key := 0])]
  }

  lemma OverrunField(base: nat, key: Bytes, rest: Bytes)
    requires |key| < 128 && base + 4 + |key| + |rest| < TWO63
    ensures DecodeField(KMap, VMap(map[]), 2, base, OverrunBody(key, rest))
            == FieldStep(VMap(map[key := 0]), 3, Nil)
  {
    hide Delimited, ReadEntry, ReadVarint, Decode;
    OverrunEntry(base, key, rest);
    var none: map<Bytes, int32> := map[];
    assert none[key := 0] == map[key := 0];
  }

  lemma OverrunSplit(num: nat, key: Bytes, rest: Bytes)
    requires 1 <= num <= 15 && |key| < 128
    ensures Overrun(num, |key|) + (key + rest) == [num * 8 + 2] + OverrunBody(key, rest)
    ensures (Overrun(num, |key|) + (key + rest))[4..] == key + rest
  {
  }

  /** The record with that entry: the bytes behind it become the key, and are read again. */
  lemma OverrunRecord(sc: Schema, j: nat, num: nat, key: Bytes, rest: Bytes)
    requires 1 <= num <= 15 && j < |sc.fields| && Find(sc, num) == j && sc.fields[j].kind.KMap?
    requires |key| < 128 && 5 + |key| + |rest| < TWO63
    ensures DecodeRecord(sc, Empty(sc), 0, Overrun(num, |key|) + (key + rest)) == Step(OneEntry(sc, j, key), 4, Nil)
  {
    hide FieldNumber, WireType, ReadVarint, DecodeField, Typed, Empty, EmptyValue, Overrun, OverrunBody, Find;
    var tag: byte := num * 8 + 2;
    EmptyMapAt(sc, j);
    OverrunSplit(num, key, rest);
    OneByteTag(tag, OverrunBody(key, rest));
    OverrunField(1, key, rest);
  }

  lemma EmptyMapAt(sc: Schema, j: nat)
    requires j < |sc.fields| && sc.fields[j].kind.KMap?
    ensures Typed(sc, Empty(sc)) && |Empty(sc)| == |sc.fields| && Empty(sc)[j] == VMap(map[])
  {
    assert Empty(sc)[j] == EmptyValue(KMap);
  }

  /** The end of that record is a boundary, and the message is the one after the records behind it. */
  lemma OverrunThen(sc: Schema, j: nat, key: Bytes, rest: Bytes, m: Message)
    requires ValidSchema(sc) && j < |sc.fields| && sc.fields[j].kind.KMap?
    requires |key| < 128 && 5 + |key| + |rest| < TWO63
    requires Decode(sc, OneEntry(sc, j, key), 4, key + rest) == Outcome(m, Nil)
    ensures var d := Overrun(sc.fields[j].num, |key|) + (key + rest);
            Boundary(sc, Empty(sc), 0, d, 4) && Unmarshal(sc, Empty(sc), d) == Outcome(m, Nil)
  {
    var num := sc.fields[j].num;
    assert 1 <= num <= 15;
    FindAt(sc, j);
    hide DecodeRecord, Typed, ValidSchema, Empty, OneEntry, Overrun;
    OverrunRecord(sc, j, num, key, rest);
    OverrunSplit(num, key, rest);
  }

  lemma DifferentKeys(sc: Schema, j: nat, key: Bytes, key': Bytes)
    requires j < |sc.fields| && sc.fields[j].kind.KMap? && key != key'
    ensures OneEntry(sc, j, key)[j] != OneEntry(sc, j, key')[j]
  {
    hide Typed;
    var a: map<Bytes, int32>, b: map<Bytes, int32> := map[key := 0], map[key' := 0];
    assert key in a && key !in b;
  }

  /** A varint field with the number 16, which no valid schema has. */
  function Sixteen(x: byte): WireField {
    Scalar([0x80, 0x01], [x])
  }

  lemma SixteenIsUnknown(sc: Schema, x: byte)
    requires ValidSchema(sc) && x < 128
    ensures WellFormed(Sixteen(x)) && Unknown(sc, TagOf(Sixteen(x))) && Unparse(Sixteen(x)) == [0x80, 0x01, x]
  {
    hide Typed;
    TagOfSixteen();
    NumberUnknown(sc, 16, 0);
    OneByteTag(x, []);
    assert [x] + [] == [x];
  }

  lemma TagOfSixteen()
    ensures ReadVarint([0x80, 0x01]) == Read(128, 2, Nil)
    ensures WireType(128) == 0
  {
    assert [0x80, 0x01][1..] == [0x01];
  }

  /** Two of these fields, one behind the other, are passed over. */
  lemma SixteensIgnored(sc: Schema, m: Message, base: nat, x: byte, y: byte)
    requires ValidSchema(sc) && Typed(sc, m) && x < 128 && y < 128 && base < 100
    ensures Decode(sc, m, base, [0x80, 0x01, x]) == Outcome(m, Nil)
    ensures Decode(sc, m, base, [0x80, 0x01, x] + [0x80, 0x01, y]) == Outcome(m, Nil)
  {
    hide WellFormed, Unparse, Unknown, Typed, Decode, ValidSchema, TagOf, Sixteen;
    SixteenIsUnknown(sc, x);
    SixteenIsUnknown(sc, y);
    DecodeUnknown(sc, m, base, Sixteen(x));
    DecodeUnknown(sc, m, base + 3, Sixteen(y));
    DecodeConcat(sc, m, base, [0x80, 0x01, x], [0x80, 0x01, y]);
  }

  // ---------------------------------------------------------------- main results

  /** Wherever an unknown field may stand between two records, it does not change the message. */
  ghost predicate Transparent(sc: Schema) {
    forall m: Message, d: Bytes, k: nat, f | Typed(sc, m) && Between(sc, m, d, k, f) ::
      Unmarshal(sc, m, d[..k] + Unparse(f) + d[k..]) == Unmarshal(sc, m, d)
  }

  /** A map field that is followed by a field 16: a second one in between becomes the key. */
  lemma MapIsNotTransparent(sc: Schema, j: nat)
    requires ValidSchema(sc) && j < |sc.fields| && sc.fields[j].kind.KMap?
    ensures !Transparent(sc)
  {
    hide WellFormed, Unparse, Unknown, Typed, Decode, Boundary, TagOf, Sixteen, OneEntry, Empty;
    var head := Overrun(sc.fields[j].num, 3);
    var five, six := [0x80, 0x01, 5], [0x80, 0x01, 6];
    var m, m' := OneEntry(sc, j, five), OneEntry(sc, j, six);
    SixteensIgnored(sc, m, 4, 5, 5);
    SixteensIgnored(sc, m', 4, 6, 5);
    assert five + [] == five;
    OverrunThen(sc, j, five, [], m);
    OverrunThen(sc, j, six, five, m');
    SixteenIsUnknown(sc, 6);
    assert five[2] != six[2];
    DifferentKeys(sc, j, five, six);
    var d := head + five;
    assert Between(sc, Empty(sc), d, 4, Sixteen(6));
    assert d[..4] + six + d[4..] == head + (six + five);
  }

  /**
    Unknown fields can be inserted between the records of every accepted input exactly for the
    schemas without map fields.
   */
  lemma TransparentIffNoMap(sc: Schema)
    requires ValidSchema(sc)
    ensures Transparent(sc) <==> NoMap(sc)
  {
    hide WellFormed, Unparse, Unknown, Typed, Decode, Boundary, ValidSchema, TagOf;
    if NoMap(sc) {
      forall m: Message, d: Bytes, k: nat, f | Typed(sc, m) && Between(sc, m, d, k, f)
        ensures Unmarshal(sc, m, d[..k] + Unparse(f) + d[k..]) == Unmarshal(sc, m, d)
      {
        UnknownBetweenRecords(sc, m, d, k, f);
      }
    } else {
      var j :| 0 <= j < |sc.fields| && sc.fields[j].kind.KMap?;
      MapIsNotTransparent(sc, j);
    }
  }

  /**
    For instance, a field 3 between an entry of PeopleScheduledPerWeek and PeopleOnShifts: without it
    the bytes of PeopleOnShifts are also the key of the entry, with it the bytes of field 3 are.
   */
  lemma UnknownNotTransparentInMaps()
    ensures var sc := GROWTH_GRAPH_RESPONSE;
            var known, f := [0x10, 0x05], Scalar([0x18], [0x05]);
            var entry := [0x0a, 0x02, 0x0a, 0x02];
            && Boundary(sc, Empty(sc), 0, entry + known, |entry|)
            && WellFormed(f) && Unknown(sc, TagOf(f))
            && Unmarshal(sc, Empty(sc), entry + known)
               == Outcome(OneEntry(sc, 0, [0x10, 0x05])[1 := VInt32(5)], Nil)
            && Unmarshal(sc, Empty(sc), entry + (Unparse(f) + known))
               == Outcome(OneEntry(sc, 0, [0x18, 0x05])[1 := VInt32(5)], Nil)
            && OneEntry(sc, 0, [0x10, 0x05])[0] != OneEntry(sc, 0, [0x18, 0x05])[0]
  {
    hide Decode, DecodeRecord, Empty, OneEntry, Boundary;
    var sc := GROWTH_GRAPH_RESPONSE;
    var known, unknown := [0x10, 0x05], [0x18, 0x05];
    GrowthGraphResponseIsValid();
    OneByteTag(0x18, []);
    assert [0x18] + [] == [0x18];
    NumberUnknown(sc, 3, 0);
    assert Unparse(Scalar([0x18], [0x05])) == VarintRecord(3, 5) == unknown;
    assert known == VarintRecord(2, 5) && known + [] == known;
    var m, m' := OneEntry(sc, 0, known), OneEntry(sc, 0, unknown);
    DecodeVarintRecord(sc, m, 4, 1, 5);
    OverrunThen(sc, 0, known, [], m[1 := VInt32(5)]);
    VarintRecordIgnored(sc, m', 4, 3, 5);
    DecodeVarintRecord(sc, m', 6, 1, 5);
    DecodeConcat(sc, m', 4, unknown, known);
    OverrunThen(sc, 0, unknown, known, m'[1 := VInt32(5)]);
    assert known[0] != unknown[0];
    DifferentKeys(sc, 0, known, unknown);
  }
}
