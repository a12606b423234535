/**
  Reading with one schema what was written with another: fields the reader does not know are dropped,
  fields the writer did not know are left alone, the rest is merged into the receiver. With the same
  schema on both sides and an empty receiver this is the round trip.
 */
module Evolution {
  import opened Bits
  import opened Decoder
  import opened Encoder
  import opened Entries
  import opened Errors
  import opened Merge
  import opened Schemas
  import opened Skipper
  import opened Tags
  import opened Varints

  // ---------------------------------------------------------------- what arrives

  /** Where the writer's schema `s` and the reader's schema `t` share a field number, they agree. */
  ghost predicate Compatible(s: Schema, t: Schema)
    decreases s
  {
    forall i, j :: 0 <= i < |s.fields| && 0 <= j < |t.fields| && s.fields[i].num == t.fields[j].num
      ==> CompatibleKinds(s.fields[i].kind, t.fields[j].kind)
  }

  ghost predicate CompatibleKinds(k: Kind, k': Kind)
    decreases k
  {
    match k
    case KMessage(sub) => k'.KMessage? && Compatible(sub, k'.sub)
    case KMessages(sub) => k'.KMessages? && Compatible(sub, k'.sub)
    case _ => k' == k
  }

  /** The reader's view of the writer's fields before position `n`. */
  ghost function ProjectUpTo(s: Schema, t: Schema, m: Message, n: nat): (r: Message)
    requires Typed(s, m) && Compatible(s, t) && n <= |s.fields|
    ensures Typed(t, r)
    decreases s, 1
  {
    seq(|t.fields|, j requires 0 <= j < |t.fields| => ProjectField(s, t, m, n, j))
  }

  ghost function ProjectField(s: Schema, t: Schema, m: Message, n: nat, j: nat): (v: Value)
    requires Typed(s, m) && Compatible(s, t) && n <= |s.fields| && j < |t.fields|
    ensures TypedValue(t.fields[j].kind, v)
    decreases s, 0
  {
    var i := Find(s, t.fields[j].num);
    if 0 <= i < n then ProjectValue(s.fields[i].kind, t.fields[j].kind, m[i])
    else EmptyValue(t.fields[j].kind)
  }

  ghost function ProjectValue(k: Kind, k': Kind, v: Value): (v': Value)
    requires TypedValue(k, v) && CompatibleKinds(k, k')
    ensures TypedValue(k', v')
    decreases k
  {
    match k
    case KMessage(sub) => VMessage(Project(sub, k'.sub, v.m))
    case KMessages(sub) => VMessages(ProjectAll(sub, k'.sub, v.ms))
    case _ => v
  }

  ghost function ProjectAll(s: Schema, t: Schema, ms: seq<Message>): (r: seq<Message>)
    requires Compatible(s, t) && forall i :: 0 <= i < |ms| ==> Typed(s, ms[i])
    ensures |r| == |ms| && forall i :: 0 <= i < |r| ==> Typed(t, r[i])
    decreases s, 3
  {
    seq(|ms|, i requires 0 <= i < |ms| => Project(s, t, ms[i]))
  }

  /** The reader's view of the writer's message. */
  ghost function Project(s: Schema, t: Schema, m: Message): (r: Message)
    requires Typed(s, m) && Compatible(s, t)
    ensures Typed(t, r)
    decreases s, 2
  {
    ProjectUpTo(s, t, m, |s.fields|)
  }

  // ---------------------------------------------------------------- what it does to the receiver

  /** The receiver `m` after a message `p` of the same schema has been unmarshalled into it. */
  ghost function Merged(t: Schema, m: Message, p: Message): (r: Message)
    requires Typed(t, m) && Typed(t, p)
    ensures Typed(t, r)
    decreases t
  {
    seq(|t.fields|, j requires 0 <= j < |t.fields| => MergedValue(t.fields[j].kind, m[j], p[j]))
  }

  /**
    A zero value is not on the wire and leaves the field alone; otherwise scalars are replaced,
    lists appended to, embedded messages merged and map keys overwritten.
   */
  ghost function MergedValue(k: Kind, v: Value, p: Value): (r: Value)
    requires TypedValue(k, v) && TypedValue(k, p)
    ensures TypedValue(k, r)
    decreases k
  {
    match k
    case KString => if p.str == [] then v else p
    case KBool => if p.b then p else v
    case KInt32 => if p.i == 0 then v else p
    case KMessage(sub) => VMessage(Merged(sub, v.m, p.m))
    case KStrings => VStrings(v.strs + p.strs)
    case KMessages(_) => VMessages(v.ms + p.ms)
    case KMap => VMap(v.entries + p.entries)
  }

  lemma {:induction false} MergedWithEmpty(t: Schema, m: Message)
    requires Typed(t, m)
    ensures Merged(t, m, Empty(t)) == m
    ensures Merged(t, Empty(t), m) == m
    decreases t
  {
    hide Merged, MergedValue;
    forall j | 0 <= j < |t.fields|
      ensures MergedValue(t.fields[j].kind, m[j], Empty(t)[j]) == m[j]
      ensures MergedValue(t.fields[j].kind, Empty(t)[j], m[j]) == m[j]
    {
      MergedWithEmptyValue(t.fields[j].kind, m[j]);
    }
    MergedPointwise(t, m, Empty(t), m);
    MergedPointwise(t, Empty(t), m, m);
  }

  lemma MergedPointwise(t: Schema, m: Message, p: Message, r: Message)
    requires Typed(t, m) && Typed(t, p) && |r| == |t.fields|
    requires forall j :: 0 <= j < |t.fields| ==> MergedValue(t.fields[j].kind, m[j], p[j]) == r[j]
    ensures Merged(t, m, p) == r
  {
    hide MergedValue;
  }

  lemma {:induction false} MergedWithEmptyValue(k: Kind, v: Value)
    requires TypedValue(k, v)
    ensures MergedValue(k, v, EmptyValue(k)) == v
    ensures MergedValue(k, EmptyValue(k), v) == v
    decreases k
  {
    match k
    case KMessage(sub) => MergedWithEmpty(sub, v.m);
    case KStrings => assert v.strs + [] == v.strs && [] + v.strs == v.strs;
    case KMessages(sub) => assert v.ms + [] == v.ms && [] + v.ms == v.ms;
    case KMap =>
      var none: map<Bytes, int32> := map[];
      assert v.entries + none == v.entries && none + v.entries == v.entries;
    case _ =>
  }

  // ---------------------------------------------------------------- one record

  lemma OneByteTag(tag: byte, rest: Bytes)
    requires tag < 128
    ensures ReadVarint([tag] + rest) == Read(tag, 1, Nil)
    ensures ([tag] + rest)[1..] == rest
    ensures FieldNumber(tag) == tag / 8 && WireType(tag) == tag % 8
  {
  }

  lemma LengthRead(base: nat, payload: Bytes)
    requires base + |Varint(|payload|) + payload| < TWO63
    ensures Delimited(base, Varint(|payload|) + payload) == Chunk(|Varint(|payload|)|, |payload|, Nil)
    ensures Payload(Varint(|payload|) + payload, Chunk(|Varint(|payload|)|, |payload|, Nil)) == payload
  {
    hide Varint, ReadVarint;
    VarintShort(|payload|);
    VarintInverse(|payload|, payload, 0);
  }

  /** A message whose only record is `s`. */
  lemma DecodeOne(t: Schema, m: Message, base: nat, s: Bytes, m': Message)
    requires Typed(t, m) && s != [] && DecodeRecord(t, m, base, s) == Step(m', |s|, Nil)
    ensures Decode(t, m, base, s) == Outcome(m', Nil)
  {
    hide DecodeRecord, Typed;
    assert s[|s|..] == [];
  }

  /** What a known length-delimited record does. */
  lemma DecodeLenRecord(t: Schema, m: Message, base: nat, j: nat, payload: Bytes)
    requires ValidSchema(t) && Typed(t, m) && j < |t.fields|
    requires var k := t.fields[j].kind; !k.KBool? && !k.KInt32?
    requires base + |LenRecord(t.fields[j].num, payload)| < TWO63
    ensures var s := Varint(|payload|) + payload;
            var c := Delimited(base + 1, s);
            && c == Chunk(|Varint(|payload|)|, |payload|, Nil)
            && var f := DecodeDelimited(t.fields[j].kind, m[j], base + 1, s, c);
               f.err == Nil ==>
                 Decode(t, m, base, LenRecord(t.fields[j].num, payload)) == Outcome(m[j := f.v], Nil)
  {
    hide Varint, ReadVarint, DecodeDelimited, Delimited, FieldNumber, WireType, Decode;
    var num, s := t.fields[j].num, Varint(|payload|) + payload;
    var record := LenRecord(num, payload);
    assert record == [num * 8 + 2] + s;
    OneByteTag(num * 8 + 2, s);
    LengthRead(base + 1, payload);
    FindAt(t, j);
    var f := DecodeDelimited(t.fields[j].kind, m[j], base + 1, s, Delimited(base + 1, s));
    if f.err == Nil {
      assert DecodeRecord(t, m, base, record) == Step(m[j := f.v], |record|, Nil);
      DecodeOne(t, m, base, record, m[j := f.v]);
    }
  }

  /** What a known varint record does. */
  lemma DecodeVarintRecord(t: Schema, m: Message, base: nat, j: nat, x: uint64)
    requires ValidSchema(t) && Typed(t, m) && j < |t.fields|
    requires t.fields[j].kind.KBool? || t.fields[j].kind.KInt32?
    ensures var v := if t.fields[j].kind.KBool? then VBool(x != 0) else VInt32(ToInt32(x));
            Decode(t, m, base, VarintRecord(t.fields[j].num, x)) == Outcome(m[j := v], Nil)
  {
    hide Varint, ReadVarint, FieldNumber, WireType, Decode, OrInto;
    var num, s := t.fields[j].num, Varint(x);
    var record := VarintRecord(num, x);
    OneByteTag(num * 8, s);
    VarintShort(x);
    VarintInverse(x, [], 0);
    assert s + [] == s;
    OrIntoZero(x);
    assert Wrap64(x) == x;
    FindAt(t, j);
    var v := if t.fields[j].kind.KBool? then VBool(x != 0) else VInt32(ToInt32(x));
    DecodeOne(t, m, base, record, m[j := v]);
  }

  // ---------------------------------------------------------------- unknown records

  lemma LenRecordIgnored(t: Schema, m: Message, base: nat, num: nat, payload: Bytes)
    requires Typed(t, m) && 1 <= num <= 15 && Find(t, num) < 0
    requires base + |LenRecord(num, payload)| < TWO63
    ensures Decode(t, m, base, LenRecord(num, payload)) == Outcome(m, Nil)
  {
    hide Varint, ReadVarint, Decode, Typed;
    var f := Scalar([num * 8 + 2], Varint(|payload|) + payload);
    OneByteTag(num * 8 + 2, []);
    assert [num * 8 + 2] + [] == [num * 8 + 2];
    NumberUnknown(t, num, 2);
    VarintShort(|payload|);
    VarintInverse(|payload|, payload, 0);
    assert LenRecord(num, payload) == Unparse(f);
    DecodeUnknown(t, m, base, f);
  }

  lemma VarintRecordIgnored(t: Schema, m: Message, base: nat, num: nat, x: uint64)
    requires Typed(t, m) && 1 <= num <= 15 && Find(t, num) < 0
    requires base + |VarintRecord(num, x)| < TWO63
    ensures Decode(t, m, base, VarintRecord(num, x)) == Outcome(m, Nil)
  {
    hide Varint, ReadVarint, Decode, Typed;
    var f := Scalar([num * 8], Varint(x));
    OneByteTag(num * 8, []);
    assert [num * 8] + [] == [num * 8];
    NumberUnknown(t, num, 0);
    VarintShort(x);
    VarintInverse(x, [], 0);
    assert Varint(x) + [] == Varint(x);
    DecodeUnknown(t, m, base, f);
  }

  lemma {:induction false} StringsIgnored(t: Schema, m: Message, base: nat, num: nat, strs: seq<Bytes>)
    requires Typed(t, m) && 1 <= num <= 15 && Find(t, num) < 0
    requires base + |EncodeStrings(num, strs)| < TWO63
    ensures Decode(t, m, base, EncodeStrings(num, strs)) == Outcome(m, Nil)
    decreases |strs|
  {
    hide Typed, LenRecord;
    if strs != [] {
      var record := LenRecord(num, strs[0]);
      LenRecordIgnored(t, m, base, num, strs[0]);
      StringsIgnored(t, m, base + |record|, num, strs[1..]);
      DecodeConcat(t, m, base, record, EncodeStrings(num, strs[1..]));
    }
  }

  lemma {:induction false} EntriesIgnored(
    t: Schema, m: Message, base: nat, num: nat, entries: map<Bytes, int32>, keys: seq<Bytes>)
    requires Typed(t, m) && 1 <= num <= 15 && Find(t, num) < 0
    requires forall k :: k in keys ==> k in entries
    requires base + |EncodeEntries(num, entries, keys)| < TWO63
    ensures Decode(t, m, base, EncodeEntries(num, entries, keys)) == Outcome(m, Nil)
    decreases |keys|
  {
    hide Typed, LenRecord, EntryBody;
    if keys != [] {
      var k, keys' := keys[|keys| - 1], keys[..|keys| - 1];
      var record := LenRecord(num, EntryBody(k, entries[k]));
      LenRecordIgnored(t, m, base, num, EntryBody(k, entries[k]));
      EntriesIgnored(t, m, base + |record|, num, entries, keys');
      DecodeConcat(t, m, base, record, EncodeEntries(num, entries, keys'));
    }
  }

  lemma {:induction false} MessagesIgnored(
    t: Schema, m: Message, base: nat, num: nat, sub: Schema, ms: seq<Message>, visit: Visit)
    requires Typed(t, m) && 1 <= num <= 15 && Find(t, num) < 0
    requires ValidSchema(sub) && Fair(visit) && forall i :: 0 <= i < |ms| ==> Typed(sub, ms[i])
    requires base + |EncodeMessages(num, sub, ms, visit)| < TWO63
    ensures Decode(t, m, base, EncodeMessages(num, sub, ms, visit)) == Outcome(m, Nil)
    decreases |ms|
  {
    hide Typed, LenRecord, EncodeFrom;
    if ms != [] {
      var payload := EncodeFrom(sub, ms[0], 0, visit);
      LenRecordIgnored(t, m, base, num, payload);
      MessagesIgnored(t, m, base + |LenRecord(num, payload)|, num, sub, ms[1..], visit);
      DecodeConcat(t, m, base, LenRecord(num, payload), EncodeMessages(num, sub, ms[1..], visit));
    }
  }

  lemma TrueRecord(num: nat)
    requires 1 <= num <= 15
    ensures VarintRecord(num, 1) == [num * 8, 1]
  {
  }

  /** A field the reader does not know leaves no trace. */
  lemma FieldIgnored(t: Schema, m: Message, base: nat, num: nat, k: Kind, v: Value, visit: Visit)
    requires Typed(t, m) && 1 <= num <= 15 && Find(t, num) < 0
    requires ValidKind(k) && TypedValue(k, v) && Fair(visit)
    requires base + |EncodeField(num, k, v, visit)| < TWO63
    ensures Decode(t, m, base, EncodeField(num, k, v, visit)) == Outcome(m, Nil)
  {
    hide Typed, LenRecord, EncodeFrom, DecodeRecord;
    match k
    case KString =>
      if v.str != [] {
        LenRecordIgnored(t, m, base, num, v.str);
      }
    case KBool =>
      if v.b {
        TrueRecord(num);
        VarintRecordIgnored(t, m, base, num, 1);
      }
    case KInt32 =>
      if v.i != 0 {
        VarintRecordIgnored(t, m, base, num, Extended(v.i));
      }
    case KMessage(sub) => LenRecordIgnored(t, m, base, num, EncodeFrom(sub, v.m, 0, visit));
    case KStrings => StringsIgnored(t, m, base, num, v.strs);
    case KMessages(sub) => MessagesIgnored(t, m, base, num, sub, v.ms, visit);
    case KMap =>
      assert IsOrder(visit(v.entries), v.entries);
      EntriesIgnored(t, m, base, num, v.entries, visit(v.entries));
  }

  // ---------------------------------------------------------------- map entries

  /** A key and a value as they are written. */
  function WrittenParts(key: Bytes, value: int32): seq<Part> {
    [Key([0x0a], Varint(|key|), key), Val([0x10], Varint(Extended(value)))]
  }

  lemma WrittenPartsAreValid(key: Bytes, value: int32)
    requires |key| < TWO63
    ensures ValidParts(WrittenParts(key, value)) && Parts(WrittenParts(key, value)) == EntryBody(key, value)
    ensures LastKey([], WrittenParts(key, value)) == key
    ensures Vals(WrittenParts(key, value)) == [Extended(value)]
  {
    hide Varint, ReadVarint;
    ByteSpells(0x0a);
    ByteSpells(0x10);
    VarintSpells(|key|);
    VarintSpells(Extended(value));
    var ps := WrittenParts(key, value);
    var rest := ps[1..];
    assert rest == [ps[1]] && rest[1..] == [];
    assert Parts(rest) == PartBytes(ps[1]) + [] && PartBytes(ps[0]) == LenRecord(1, key);
    assert LastKey(key, rest) == LastKey(key, []) == key;
    assert Vals(rest) == [Extended(value)] + [] && Vals(ps) == [] + Vals(rest);
  }

  /** An entry is read back in full, whatever its key and its value. */
  lemma EntryRead(base: nat, key: Bytes, value: int32)
    requires base + |EntryBody(key, value)| < TWO63
    ensures var s := EntryBody(key, value);
            ReadEntry(base, s, |s|, [], 0) == Entry(key, value, Nil)
  {
    hide ReadEntry, Parts, Fits, ValidParts, LastKey, Vals, OrInto, WrittenParts;
    var ps, x := WrittenParts(key, value), Extended(value);
    WrittenPartsAreValid(key, value);
    FitsExactly(ps);
    assert Parts(ps) + [] == Parts(ps);
    PartsRead(base, ps, [], |Parts(ps)|, [], 0);
    OrIntoZero(x);
    ToInt32Extended(value);
    assert [x][1..] == [];
  }

  // ---------------------------------------------------------------- known fields

  lemma StringArrives(t: Schema, m: Message, base: nat, j: nat, str: Bytes)
    requires ValidSchema(t) && Typed(t, m) && j < |t.fields| && t.fields[j].kind.KString?
    requires base + |LenRecord(t.fields[j].num, str)| < TWO63
    ensures Decode(t, m, base, LenRecord(t.fields[j].num, str)) == Outcome(m[j := VString(str)], Nil)
  {
    hide LenRecord, DecodeRecord, Delimited, ReadVarint;
    LenRecordParts(t.fields[j].num, str);
    DecodeLenRecord(t, m, base, j, str);
    LengthRead(base + 1, str);
  }

  lemma {:induction false} StringsArrive(t: Schema, m: Message, base: nat, j: nat, strs: seq<Bytes>)
    requires ValidSchema(t) && Typed(t, m) && j < |t.fields| && t.fields[j].kind.KStrings?
    requires base + |EncodeStrings(t.fields[j].num, strs)| < TWO63
    ensures Decode(t, m, base, EncodeStrings(t.fields[j].num, strs))
            == Outcome(m[j := VStrings(m[j].strs + strs)], Nil)
    decreases |strs|
  {
    hide LenRecord, DecodeRecord, Delimited;
    var num := t.fields[j].num;
    if strs == [] {
      assert m[j].strs + strs == m[j].strs;
    } else {
      DecodeLenRecord(t, m, base, j, strs[0]);
      LengthRead(base + 1, strs[0]) by {
        LenRecordParts(num, strs[0]);
      }
      var m' := m[j := VStrings(m[j].strs + [strs[0]])];
      StringsArrive(t, m', base + |LenRecord(num, strs[0])|, j, strs[1..]);
      DecodeConcat(t, m, base, LenRecord(num, strs[0]), EncodeStrings(num, strs[1..]));
      assert m[j].strs + [strs[0]] + strs[1..] == m[j].strs + strs;
    }
  }

  lemma LenRecordParts(num: nat, payload: Bytes)
    requires 1 <= num <= 15
    ensures |LenRecord(num, payload)| == 1 + |Varint(|payload|) + payload|
  {
  }

  /** The entries of a map with the given keys. */
  ghost function Chosen(entries: map<Bytes, int32>, keys: seq<Bytes>): map<Bytes, int32>
    requires forall k :: k in keys ==> k in entries
  {
    map k | k in keys :: entries[k]
  }

  lemma ChosenNone(entries: map<Bytes, int32>, known: map<Bytes, int32>)
    ensures known + Chosen(entries, []) == known
  {
  }

  /** The last key is the first on the wire. */
  lemma ChosenNext(entries: map<Bytes, int32>, keys: seq<Bytes>, known: map<Bytes, int32>)
    requires keys != [] && forall k :: k in keys ==> k in entries
    ensures var n := |keys| - 1;
            known[keys[n] := entries[keys[n]]] + Chosen(entries, keys[..n]) == known + Chosen(entries, keys)
  {
  }

  lemma {:induction false} EntriesArrive(
    t: Schema, m: Message, base: nat, j: nat, entries: map<Bytes, int32>, keys: seq<Bytes>)
    requires ValidSchema(t) && Typed(t, m) && j < |t.fields| && t.fields[j].kind.KMap?
    requires forall k :: k in keys ==> k in entries
    requires base + |EncodeEntries(t.fields[j].num, entries, keys)| < TWO63
    ensures Decode(t, m, base, EncodeEntries(t.fields[j].num, entries, keys))
            == Outcome(m[j := VMap(m[j].entries + Chosen(entries, keys))], Nil)
    decreases |keys|
  {
    hide LenRecord, DecodeRecord, EntryBody, Chosen;
    var num := t.fields[j].num;
    if keys == [] {
      ChosenNone(entries, m[j].entries);
      assert m[j := m[j]] == m;
    } else {
      var k, keys' := keys[|keys| - 1], keys[..|keys| - 1];
      var body := EntryBody(k, entries[k]);
      var m' := m[j := VMap(m[j].entries[k := entries[k]])];
      EntryArrives(t, m, base, j, k, entries[k]);
      EntriesArrive(t, m', base + |LenRecord(num, body)|, j, entries, keys');
      DecodeConcat(t, m, base, LenRecord(num, body), EncodeEntries(num, entries, keys'));
      ChosenNext(entries, keys, m[j].entries);
    }
  }

  lemma EntryArrives(t: Schema, m: Message, base: nat, j: nat, key: Bytes, value: int32)
    requires ValidSchema(t) && Typed(t, m) && j < |t.fields| && t.fields[j].kind.KMap?
    requires base + |LenRecord(t.fields[j].num, EntryBody(key, value))| < TWO63
    ensures Decode(t, m, base, LenRecord(t.fields[j].num, EntryBody(key, value)))
            == Outcome(m[j := VMap(m[j].entries[key := value])], Nil)
  {
    hide LenRecord, DecodeRecord, Delimited, EntryBody, ReadEntry, Varint, ReadVarint, Decode;
    var body := EntryBody(key, value);
    LenRecordParts(t.fields[j].num, body);
    DecodeLenRecord(t, m, base, j, body);
    assert (Varint(|body|) + body)[|Varint(|body|)|..] == body;
    EntryRead(base + 1 + |Varint(|body|)|, key, value);
  }

  /** A record of a list of messages is read into a new message, which is appended. */
  lemma MessageAppended(t: Schema, m: Message, base: nat, j: nat, payload: Bytes, p: Message)
    requires ValidSchema(t) && Typed(t, m) && j < |t.fields| && t.fields[j].kind.KMessages?
    requires base + |LenRecord(t.fields[j].num, payload)| < TWO63
    requires var sub := t.fields[j].kind.sub; Decode(sub, Empty(sub), 0, payload) == Outcome(p, Nil)
    ensures Decode(t, m, base, LenRecord(t.fields[j].num, payload)) == Outcome(m[j := VMessages(m[j].ms + [p])], Nil)
  {
    LenRecordParts(t.fields[j].num, payload);
    hide LenRecord, DecodeRecord, Delimited, Decode, Varint, Empty;
    LengthRead(base + 1, payload);
    DecodeLenRecord(t, m, base, j, payload);
  }

  lemma {:induction false} MessagesArrive(
    t: Schema, m: Message, base: nat, j: nat, sub: Schema, ms: seq<Message>, visit: Visit)
    requires ValidSchema(t) && Typed(t, m) && j < |t.fields| && t.fields[j].kind.KMessages?
    requires ValidSchema(sub) && Compatible(sub, t.fields[j].kind.sub) && Fair(visit)
    requires forall i :: 0 <= i < |ms| ==> Typed(sub, ms[i])
    requires base + |EncodeMessages(t.fields[j].num, sub, ms, visit)| < TWO63
    ensures Decode(t, m, base, EncodeMessages(t.fields[j].num, sub, ms, visit))
            == Outcome(m[j := VMessages(m[j].ms + ProjectAll(sub, t.fields[j].kind.sub, ms))], Nil)
    decreases sub, |sub.fields| + 2, |ms|
  {
    hide LenRecord, DecodeRecord, EncodeFrom, Project, Compatible, Merged, Empty;
    var num, sub' := t.fields[j].num, t.fields[j].kind.sub;
    if ms == [] {
      assert m[j].ms + ProjectAll(sub, sub', ms) == m[j].ms;
    } else {
      var payload := EncodeFrom(sub, ms[0], 0, visit);
      var p := Project(sub, sub', ms[0]);
      LenRecordParts(num, payload);
      Arrives(sub, sub', Empty(sub'), ms[0], visit);
      MergedWithEmpty(sub', p);
      MessageAppended(t, m, base, j, payload, p);
      var m' := m[j := VMessages(m[j].ms + [p])];
      MessagesArrive(t, m', base + |LenRecord(num, payload)|, j, sub, ms[1..], visit);
      DecodeConcat(t, m, base, LenRecord(num, payload), EncodeMessages(num, sub, ms[1..], visit));
      assert ProjectAll(sub, sub', ms) == [p] + ProjectAll(sub, sub', ms[1..]);
      assert m'[j].ms + ProjectAll(sub, sub', ms[1..]) == m[j].ms + ProjectAll(sub, sub', ms);
    }
  }

  /** A field that both sides know is merged into the receiver. */
  lemma {:induction false} FieldArrives(t: Schema, m: Message, base: nat, j: nat, k: Kind, v: Value, visit: Visit)
    requires ValidSchema(t) && Typed(t, m) && j < |t.fields|
    requires ValidKind(k) && TypedValue(k, v) && Fair(visit) && CompatibleKinds(k, t.fields[j].kind)
    requires base + |EncodeField(t.fields[j].num, k, v, visit)| < TWO63
    ensures var k' := t.fields[j].kind;
            Decode(t, m, base, EncodeField(t.fields[j].num, k, v, visit))
            == Outcome(m[j := MergedValue(k', m[j], ProjectValue(k, k', v))], Nil)
    decreases k
  {
    hide LenRecord, VarintRecord, DecodeRecord, Delimited, EncodeFrom, Compatible, ReadVarint;
    var num := t.fields[j].num;
    assert m[j := m[j]] == m;
    match k
    case KString =>
      if v.str != [] {
        StringArrives(t, m, base, j, v.str);
      }
    case KBool =>
      if v.b {
        TrueRecord(num);
        DecodeVarintRecord(t, m, base, j, 1);
      }
    case KInt32 =>
      if v.i != 0 {
        DecodeVarintRecord(t, m, base, j, Extended(v.i));
        ToInt32Extended(v.i);
      }
    case KMessage(sub) =>
      var payload := EncodeFrom(sub, v.m, 0, visit);
      LenRecordParts(num, payload);
      DecodeLenRecord(t, m, base, j, payload);
      LengthRead(base + 1, payload);
      Arrives(sub, t.fields[j].kind.sub, m[j].m, v.m, visit);
    case KStrings => StringsArrive(t, m, base, j, v.strs);
    case KMessages(sub) => MessagesArrive(t, m, base, j, sub, v.ms, visit);
    case KMap =>
      assert IsOrder(visit(v.entries), v.entries);
      EntriesArrive(t, m, base, j, v.entries, visit(v.entries));
      assert Chosen(v.entries, visit(v.entries)) == v.entries;
  }

  // ---------------------------------------------------------------- messages

  /** Handling the writer's field at position `n`. */
  lemma ProjectNext(s: Schema, t: Schema, m: Message, n: nat)
    requires ValidSchema(s) && ValidSchema(t) && Typed(s, m) && Compatible(s, t) && n < |s.fields|
    ensures var j := Find(t, s.fields[n].num);
            var before, after := ProjectUpTo(s, t, m, n), ProjectUpTo(s, t, m, n + 1);
            if j < 0 then after == before
            else before[j] == EmptyValue(t.fields[j].kind)
                 && after == before[j := ProjectValue(s.fields[n].kind, t.fields[j].kind, m[n])]
  {
    hide ProjectValue, EmptyValue, Typed, Compatible;
    FindAt(s, n);
    var j := Find(t, s.fields[n].num);
    forall j' | 0 <= j' < |t.fields| && j' != j
      ensures ProjectField(s, t, m, n, j') == ProjectField(s, t, m, n + 1, j')
    {
      if Find(s, t.fields[j'].num) == n {
        FindAt(t, j');
      }
    }
  }

  /** Merging the writer's field at position `n` into the receiver. */
  lemma MergedNext(s: Schema, t: Schema, r: Message, m: Message, n: nat)
    requires ValidSchema(s) && ValidSchema(t) && Typed(s, m) && Typed(t, r) && Compatible(s, t) && n < |s.fields|
    ensures var j := Find(t, s.fields[n].num);
            var before := Merged(t, r, ProjectUpTo(s, t, m, n));
            var after := Merged(t, r, ProjectUpTo(s, t, m, n + 1));
            if j < 0 then after == before
            else
              var k' := t.fields[j].kind;
              after == before[j := MergedValue(k', before[j], ProjectValue(s.fields[n].kind, k', m[n]))]
  {
    hide ProjectValue, EmptyValue, MergedValue, ProjectUpTo, Compatible, ValidSchema, ValidKind;
    ProjectNext(s, t, m, n);
    var j := Find(t, s.fields[n].num);
    if j >= 0 {
      MergedWithEmptyValue(t.fields[j].kind, r[j]);
    }
  }

  lemma {:induction false} ArrivesFrom(s: Schema, t: Schema, r: Message, m: Message, n: nat, base: nat, visit: Visit)
    requires ValidSchema(s) && ValidSchema(t) && Typed(s, m) && Typed(t, r) && Compatible(s, t) && Fair(visit)
    requires n <= |s.fields| && base + |EncodeFrom(s, m, n, visit)| < TWO63
    ensures Decode(t, Merged(t, r, ProjectUpTo(s, t, m, n)), base, EncodeFrom(s, m, n, visit))
            == Outcome(Merged(t, r, Project(s, t, m)), Nil)
    decreases s, |s.fields| - n
  {
    hide EncodeField, ProjectUpTo, DecodeRecord, Merged, MergedValue, ProjectValue;
    if n < |s.fields| {
      var num, k := s.fields[n].num, s.fields[n].kind;
      var front := EncodeField(num, k, m[n], visit);
      var before := Merged(t, r, ProjectUpTo(s, t, m, n));
      var j := Find(t, num);
      MergedNext(s, t, r, m, n);
      if j < 0 {
        FieldIgnored(t, before, base, num, k, m[n], visit);
      } else {
        FieldArrives(t, before, base, j, k, m[n], visit);
      }
      ArrivesFrom(s, t, r, m, n + 1, base + |front|, visit);
      DecodeConcat(t, before, base, front, EncodeFrom(s, m, n + 1, visit));
    }
  }

  lemma {:induction false} Arrives(s: Schema, t: Schema, r: Message, m: Message, visit: Visit)
    requires ValidSchema(s) && ValidSchema(t) && Typed(s, m) && Typed(t, r) && Compatible(s, t) && Fair(visit)
    requires |EncodeFrom(s, m, 0, visit)| < TWO63
    ensures Decode(t, r, 0, EncodeFrom(s, m, 0, visit)) == Outcome(Merged(t, r, Project(s, t, m)), Nil)
    decreases s, |s.fields| + 1
  {
    hide EncodeField, DecodeRecord, Merged;
    ArrivesFrom(s, t, r, m, 0, 0, visit);
    assert ProjectUpTo(s, t, m, 0) == Empty(t);
    MergedWithEmpty(t, r);
  }

  // ---------------------------------------------------------------- main results

  /**
    Schema evolution: what was written with schema `s`, visiting maps in any order, is accepted under
    any compatible schema `t`, and the projection of the message written is merged into the receiver.
   */
  lemma EvolutionIsProjection(s: Schema, t: Schema, r: Message, m: Message, visit: Visit)
    requires ValidSchema(s) && ValidSchema(t) && Typed(s, m) && Typed(t, r) && Compatible(s, t) && Fair(visit)
    requires |Marshal(s, m, visit)| < TWO63
    ensures Unmarshal(t, r, Marshal(s, m, visit)) == Outcome(Merged(t, r, Project(s, t, m)), Nil)
    ensures Unmarshal(t, Empty(t), Marshal(s, m, visit)) == Outcome(Project(s, t, m), Nil)
  {
    Arrives(s, t, r, m, visit);
    Arrives(s, t, Empty(t), m, visit);
    MergedWithEmpty(t, Project(s, t, m));
  }

  lemma {:induction false} CompatibleWithItself(s: Schema)
    requires ValidSchema(s)
    ensures Compatible(s, s)
    decreases s
  {
    forall i, j | 0 <= i < |s.fields| && 0 <= j < |s.fields| && s.fields[i].num == s.fields[j].num
      ensures CompatibleKinds(s.fields[i].kind, s.fields[j].kind)
    {
      assert i == j;
      var k := s.fields[i].kind;
      if k.KMessage? || k.KMessages? {
        CompatibleWithItself(k.sub);
      }
    }
  }

  lemma {:induction false} ProjectIsIdentity(s: Schema, m: Message)
    requires ValidSchema(s) && Typed(s, m) && Compatible(s, s)
    ensures Project(s, s, m) == m
    decreases s
  {
    forall j | 0 <= j < |s.fields|
      ensures ProjectField(s, s, m, |s.fields|, j) == m[j]
    {
      FindAt(s, j);
      var k := s.fields[j].kind;
      match k
      case KMessage(sub) => ProjectIsIdentity(sub, m[j].m);
      case KMessages(sub) =>
        forall i | 0 <= i < |m[j].ms|
          ensures Project(sub, sub, m[j].ms[i]) == m[j].ms[i]
        {
          ProjectIsIdentity(sub, m[j].ms[i]);
        }
        assert ProjectAll(sub, sub, m[j].ms) == m[j].ms;
      case _ =>
    }
  }

  /** Round trip: unmarshalling a marshalled message into an empty one gives it back. */
  lemma RoundTrip(s: Schema, m: Message, visit: Visit)
    requires ValidSchema(s) && Typed(s, m) && Fair(visit) && |Marshal(s, m, visit)| < TWO63
    ensures Unmarshal(s, Empty(s), Marshal(s, m, visit)) == Outcome(m, Nil)
  {
    CompatibleWithItself(s);
    EvolutionIsProjection(s, s, Empty(s), m, visit);
    ProjectIsIdentity(s, m);
  }

  /** The encodings of two messages, one behind the other, are an encoding of their merge. */
  lemma ConcatenatedEncodings(s: Schema, a: Message, b: Message, visit: Visit, visit': Visit)
    requires ValidSchema(s) && Typed(s, a) && Typed(s, b) && Fair(visit) && Fair(visit')
    requires |Marshal(s, a, visit) + Marshal(s, b, visit')| < TWO63
    ensures Unmarshal(s, Empty(s), Marshal(s, a, visit) + Marshal(s, b, visit')) == Outcome(Merged(s, a, b), Nil)
  {
    hide Decode, EncodeFrom, Merged, Typed, ValidSchema, Compatible, Project, Announced, Empty;
    RoundTrip(s, a, visit);
    CompatibleWithItself(s);
    EvolutionIsProjection(s, s, a, b, visit');
    ProjectIsIdentity(s, b);
    ConcatenationIsMerge(s, Empty(s), Marshal(s, a, visit), Marshal(s, b, visit'));
  }

  /** Different messages never share an encoding, whatever the orders of their maps. */
  lemma MarshalInjective(s: Schema, m: Message, m': Message, visit: Visit, visit': Visit)
    requires ValidSchema(s) && Typed(s, m) && Typed(s, m') && Fair(visit) && Fair(visit')
    requires |Marshal(s, m, visit)| < TWO63
    requires Marshal(s, m, visit) == Marshal(s, m', visit')
    ensures m == m'
  {
    RoundTrip(s, m, visit);
    RoundTrip(s, m', visit');
  }
}
