/**
  `MarshalToSizedBuffer` as a function to bytes, and `Size`.
 */
module Encoder {
  import opened Bits
  import opened Schemas
  import opened Varints

  // ---------------------------------------------------------------- the order of maps

  /** The order in which `range` visits a map; nothing is known about it. */
  type Visit = map<Bytes, int32> -> seq<Bytes>

  ghost predicate IsOrder(keys: seq<Bytes>, entries: map<Bytes, int32>) {
    && |keys| == |entries|
    && Distinct(keys)
    && (forall k :: k in keys <==> k in entries)
  }

  /** Every map is visited key by key. */
  ghost predicate Fair(visit: Visit) {
    forall entries :: IsOrder(visit(entries), entries)
  }

  /** Some order of a map. */
  ghost function SomeOrder(entries: map<Bytes, int32>): (keys: seq<Bytes>)
    ensures IsOrder(keys, entries)
    decreases |entries|
  {
    if entries == map[] then [] else
    var k :| k in entries;
    var fewer := entries - {k};
    assert fewer.Keys == entries.Keys - {k} && |fewer| == |fewer.Keys| && |entries| == |entries.Keys|;
    [k] + SomeOrder(fewer)
  }

  /** There is a way to visit every map. */
  lemma FairVisitExists() returns (visit: Visit)
    ensures Fair(visit)
  {
    visit := entries => SomeOrder(entries);
  }

  // ---------------------------------------------------------------- bytes

  /** A tag of one byte, a length and the bytes. */
  function LenRecord(num: nat, payload: Bytes): Bytes
    requires 1 <= num <= 15
  {
    [num * 8 + 2] + Varint(|payload|) + payload
  }

  /** A tag of one byte and a varint. */
  function VarintRecord(num: nat, x: nat): Bytes
    requires 1 <= num <= 15
  {
    [num * 8] + Varint(x)
  }

  /** A map entry without its tag: key and value are always emitted, even when empty or zero. */
  function EntryBody(key: Bytes, value: int32): Bytes {
    LenRecord(1, key) + VarintRecord(2, Extended(value))
  }

  /** The entries in the order of the bytes: the key visited last comes first. */
  function EncodeEntries(num: nat, entries: map<Bytes, int32>, keys: seq<Bytes>): Bytes
    requires 1 <= num <= 15 && forall k :: k in keys ==> k in entries
  {
    if keys == [] then []
    else
      var k := keys[|keys| - 1];
      LenRecord(num, EntryBody(k, entries[k])) + EncodeEntries(num, entries, keys[..|keys| - 1])
  }

  function EncodeStrings(num: nat, strs: seq<Bytes>): Bytes
    requires 1 <= num <= 15
  {
    if strs == [] then [] else LenRecord(num, strs[0]) + EncodeStrings(num, strs[1..])
  }

  ghost function EncodeMessages(num: nat, sub: Schema, ms: seq<Message>, visit: Visit): Bytes
    requires 1 <= num <= 15 && ValidSchema(sub) && Fair(visit)
    requires forall i :: 0 <= i < |ms| ==> Typed(sub, ms[i])
    decreases sub, |sub.fields| + 1, |ms|
  {
    if ms == [] then []
    else LenRecord(num, EncodeFrom(sub, ms[0], 0, visit)) + EncodeMessages(num, sub, ms[1..], visit)
  }

  /** One field: nothing for a zero value, except for an embedded message. */
  ghost function EncodeField(num: nat, k: Kind, v: Value, visit: Visit): Bytes
    requires 1 <= num <= 15 && ValidKind(k) && TypedValue(k, v) && Fair(visit)
    decreases k
  {
    match k
    case KString => if v.str == [] then [] else LenRecord(num, v.str)
    case KBool => if v.b then [num * 8, 1] else []
    case KInt32 => if v.i == 0 then [] else VarintRecord(num, Extended(v.i))
    case KMessage(sub) => LenRecord(num, EncodeFrom(sub, v.m, 0, visit))
    case KStrings => EncodeStrings(num, v.strs)
    case KMessages(sub) => EncodeMessages(num, sub, v.ms, visit)
    case KMap =>
      assert IsOrder(visit(v.entries), v.entries);
      EncodeEntries(num, v.entries, visit(v.entries))
  }

  /** The fields from position `i` on. */
  ghost function EncodeFrom(s: Schema, m: Message, i: nat, visit: Visit): Bytes
    requires ValidSchema(s) && Typed(s, m) && Fair(visit) && i <= |s.fields|
    decreases s, |s.fields| - i
  {
    if i == |s.fields| then []
    else EncodeField(s.fields[i].num, s.fields[i].kind, m[i], visit) + EncodeFrom(s, m, i + 1, visit)
  }

  /** `m.Marshal()`, for one order of visiting the maps. */
  ghost function Marshal(s: Schema, m: Message, visit: Visit): Bytes
    requires ValidSchema(s) && Typed(s, m) && Fair(visit)
  {
    EncodeFrom(s, m, 0, visit)
  }

  // ---------------------------------------------------------------- sizes

  /** `1 + l + sov(l)`. */
  function LenSize(l: nat): nat {
    1 + l + Sov(l)
  }

  function EntrySize(key: Bytes, value: int32): nat {
    1 + |key| + Sov(|key|) + 1 + Sov(Extended(value))
  }

  function EntriesSize(entries: map<Bytes, int32>, keys: seq<Bytes>): nat
    requires forall k :: k in keys ==> k in entries
  {
    if keys == [] then 0
    else
      var k := keys[|keys| - 1];
      EntriesSize(entries, keys[..|keys| - 1]) + LenSize(EntrySize(k, entries[k]))
  }

  function StringsSize(strs: seq<Bytes>): nat {
    if strs == [] then 0 else LenSize(|strs[0]|) + StringsSize(strs[1..])
  }

  ghost function MessagesSize(sub: Schema, ms: seq<Message>, visit: Visit): nat
    requires Fair(visit) && forall i :: 0 <= i < |ms| ==> Typed(sub, ms[i])
    decreases sub, |sub.fields| + 1, |ms|
  {
    if ms == [] then 0 else LenSize(SizeFrom(sub, ms[0], 0, visit)) + MessagesSize(sub, ms[1..], visit)
  }

  ghost function FieldSize(k: Kind, v: Value, visit: Visit): nat
    requires TypedValue(k, v) && Fair(visit)
    decreases k
  {
    match k
    case KString => if v.str == [] then 0 else LenSize(|v.str|)
    case KBool => if v.b then 2 else 0
    case KInt32 => if v.i == 0 then 0 else 1 + Sov(Extended(v.i))
    case KMessage(sub) => LenSize(SizeFrom(sub, v.m, 0, visit))
    case KStrings => StringsSize(v.strs)
    case KMessages(sub) => MessagesSize(sub, v.ms, visit)
    case KMap =>
      assert IsOrder(visit(v.entries), v.entries);
      EntriesSize(v.entries, visit(v.entries))
  }

  ghost function SizeFrom(s: Schema, m: Message, i: nat, visit: Visit): nat
    requires Typed(s, m) && Fair(visit) && i <= |s.fields|
    decreases s, |s.fields| - i
  {
    if i == |s.fields| then 0
    else FieldSize(s.fields[i].kind, m[i], visit) + SizeFrom(s, m, i + 1, visit)
  }

  /** `m.Size()`, for one order of visiting the maps. */
  ghost function Size(s: Schema, m: Message, visit: Visit): nat
    requires Typed(s, m) && Fair(visit)
  {
    SizeFrom(s, m, 0, visit)
  }

  // ---------------------------------------------------------------- Size is exact

  lemma LenRecordLength(num: nat, payload: Bytes)
    requires 1 <= num <= 15
    ensures |LenRecord(num, payload)| == LenSize(|payload|)
  {
    SovIsLength(|payload|);
  }

  lemma EntryLength(key: Bytes, value: int32)
    ensures |EntryBody(key, value)| == EntrySize(key, value)
  {
    hide Varint, Sov;
    SovIsLength(|key|);
    SovIsLength(Extended(value));
  }

  lemma {:induction false} EntriesLength(num: nat, entries: map<Bytes, int32>, keys: seq<Bytes>)
    requires 1 <= num <= 15 && forall k :: k in keys ==> k in entries
    ensures |EncodeEntries(num, entries, keys)| == EntriesSize(entries, keys)
  {
    hide LenRecord, EntryBody, EntrySize, LenSize;
    if keys != [] {
      var k := keys[|keys| - 1];
      EntryLength(k, entries[k]);
      LenRecordLength(num, EntryBody(k, entries[k]));
      EntriesLength(num, entries, keys[..|keys| - 1]);
    }
  }

  lemma {:induction false} StringsLength(num: nat, strs: seq<Bytes>)
    requires 1 <= num <= 15
    ensures |EncodeStrings(num, strs)| == StringsSize(strs)
  {
    if strs != [] {
      LenRecordLength(num, strs[0]);
      StringsLength(num, strs[1..]);
    }
  }

  lemma {:induction false} MessagesLength(num: nat, sub: Schema, ms: seq<Message>, visit: Visit)
    requires 1 <= num <= 15 && ValidSchema(sub) && Fair(visit)
    requires forall i :: 0 <= i < |ms| ==> Typed(sub, ms[i])
    ensures |EncodeMessages(num, sub, ms, visit)| == MessagesSize(sub, ms, visit)
    decreases sub, |sub.fields| + 1, |ms|
  {
    hide LenRecord, LenSize, Typed, ValidSchema;
    if ms != [] {
      MarshalLengthFrom(sub, ms[0], 0, visit);
      LenRecordLength(num, EncodeFrom(sub, ms[0], 0, visit));
      MessagesLength(num, sub, ms[1..], visit);
    }
  }

  lemma {:induction false} FieldLength(num: nat, k: Kind, v: Value, visit: Visit)
    requires 1 <= num <= 15 && ValidKind(k) && TypedValue(k, v) && Fair(visit)
    ensures |EncodeField(num, k, v, visit)| == FieldSize(k, v, visit)
    decreases k
  {
    hide LenRecord, LenSize, Varint, Sov;
    match k
    case KString => LenRecordLength(num, v.str);
    case KBool =>
    case KInt32 => SovIsLength(Extended(v.i));
    case KMessage(sub) =>
      MarshalLengthFrom(sub, v.m, 0, visit);
      LenRecordLength(num, EncodeFrom(sub, v.m, 0, visit));
    case KStrings => StringsLength(num, v.strs);
    case KMessages(sub) => MessagesLength(num, sub, v.ms, visit);
    case KMap =>
      assert IsOrder(visit(v.entries), v.entries);
      EntriesLength(num, v.entries, visit(v.entries));
  }

  lemma {:induction false} MarshalLengthFrom(s: Schema, m: Message, i: nat, visit: Visit)
    requires ValidSchema(s) && Typed(s, m) && Fair(visit) && i <= |s.fields|
    ensures |EncodeFrom(s, m, i, visit)| == SizeFrom(s, m, i, visit)
    decreases s, |s.fields| - i
  {
    hide EncodeField, FieldSize;
    if i < |s.fields| {
      FieldLength(s.fields[i].num, s.fields[i].kind, m[i], visit);
      MarshalLengthFrom(s, m, i + 1, visit);
    }
  }

  /** `Size` announces exactly the bytes that `Marshal` writes. */
  lemma SizeIsLength(s: Schema, m: Message, visit: Visit)
    requires ValidSchema(s) && Typed(s, m) && Fair(visit)
    ensures Size(s, m, visit) == |Marshal(s, m, visit)|
  {
    MarshalLengthFrom(s, m, 0, visit);
  }

  // ---------------------------------------------------------------- the order does not matter

  lemma {:induction false} EntriesSizeWithout(entries: map<Bytes, int32>, keys: seq<Bytes>, i: nat)
    requires i < |keys| && forall k :: k in keys ==> k in entries
    ensures EntriesSize(entries, keys)
            == EntriesSize(entries, keys[..i] + keys[i + 1..]) + LenSize(EntrySize(keys[i], entries[keys[i]]))
  {
    hide LenSize, EntrySize;
    var n := |keys| - 1;
    if i == n {
      assert keys[..i] + keys[i + 1..] == keys[..n];
    } else {
      EntriesSizeWithout(entries, keys[..n], i);
      var fewer := keys[..i] + keys[i + 1..];
      assert fewer[..n - 1] == keys[..n][..i] + keys[..n][i + 1..];
      assert fewer[n - 1] == keys[n];
    }
  }

  ghost predicate Distinct(keys: seq<Bytes>) {
    forall i, j :: 0 <= i < j < |keys| ==> keys[i] != keys[j]
  }

  /** Taking one key out of a list of different keys. */
  lemma WithoutKey(keys: seq<Bytes>, i: nat)
    requires Distinct(keys) && i < |keys|
    ensures var fewer := keys[..i] + keys[i + 1..];
            Distinct(fewer) && forall x :: x in fewer <==> x in keys && x != keys[i]
  {
    var fewer := keys[..i] + keys[i + 1..];
    assert forall j :: 0 <= j < |fewer| ==> fewer[j] == keys[if j < i then j else j + 1];
    forall x | x in keys && x != keys[i]
      ensures x in fewer
    {
      var j :| 0 <= j < |keys| && keys[j] == x;
      assert fewer[if j < i then j else j - 1] == x;
    }
  }

  /** Two orders of the same keys give the same size. */
  lemma {:induction false} EntriesSizeOrder(entries: map<Bytes, int32>, keys: seq<Bytes>, keys': seq<Bytes>)
    requires Distinct(keys) && Distinct(keys')
    requires |keys| == |keys'| && forall k :: k in keys <==> k in keys'
    requires forall k :: k in keys ==> k in entries
    ensures EntriesSize(entries, keys) == EntriesSize(entries, keys')
    decreases |keys|
  {
    hide LenSize, EntrySize, Distinct;
    if keys != [] {
      var n := |keys| - 1;
      var k := keys[n];
      assert k in keys';
      var i :| 0 <= i < |keys'| && keys'[i] == k;
      var fewer := keys'[..i] + keys'[i + 1..];
      EntriesSizeWithout(entries, keys', i);
      WithoutKey(keys', i);
      WithoutKey(keys, n);
      assert keys[..n] + keys[n + 1..] == keys[..n];
      EntriesSizeOrder(entries, keys[..n], fewer);
    }
  }

  /** Some of the keys take no more room than all of them. */
  lemma {:induction false} EntriesSizeSubset(entries: map<Bytes, int32>, keys: seq<Bytes>, all: seq<Bytes>)
    requires Distinct(keys) && Distinct(all)
    requires forall k :: k in keys ==> k in all
    requires forall k :: k in all ==> k in entries
    ensures EntriesSize(entries, keys) <= EntriesSize(entries, all)
    decreases |keys|
  {
    hide LenSize, EntrySize, Distinct;
    if keys != [] {
      var n := |keys| - 1;
      var k := keys[n];
      assert k in all;
      var i :| 0 <= i < |all| && all[i] == k;
      var fewer := all[..i] + all[i + 1..];
      EntriesSizeWithout(entries, all, i);
      WithoutKey(all, i);
      WithoutKey(keys, n);
      assert keys[..n] + keys[n + 1..] == keys[..n];
      EntriesSizeSubset(entries, keys[..n], fewer);
    }
  }

  /** The order `keys` for one map, and some fair order for every other. */
  ghost function Visiting(entries: map<Bytes, int32>, keys: seq<Bytes>, others: Visit): (visit: Visit)
    requires IsOrder(keys, entries) && Fair(others)
    ensures Fair(visit) && visit(entries) == keys
  {
    var visit: Visit := mp => if mp == entries then keys else others(mp);
    assert forall mp :: IsOrder(visit(mp), mp) by {
      forall mp
        ensures IsOrder(visit(mp), mp)
      {
        assert IsOrder(others(mp), mp);
      }
    }
    visit
  }

  lemma {:induction false} FieldSizeOrder(k: Kind, v: Value, visit: Visit, visit': Visit)
    requires TypedValue(k, v) && Fair(visit) && Fair(visit')
    ensures FieldSize(k, v, visit) == FieldSize(k, v, visit')
    decreases k
  {
    match k
    case KMessage(sub) => SizeFromOrder(sub, v.m, 0, visit, visit');
    case KMessages(sub) => MessagesSizeOrder(sub, v.ms, visit, visit');
    case KMap =>
      assert IsOrder(visit(v.entries), v.entries) && IsOrder(visit'(v.entries), v.entries);
      EntriesSizeOrder(v.entries, visit(v.entries), visit'(v.entries));
    case _ =>
  }

  lemma {:induction false} MessagesSizeOrder(sub: Schema, ms: seq<Message>, visit: Visit, visit': Visit)
    requires Fair(visit) && Fair(visit') && forall i :: 0 <= i < |ms| ==> Typed(sub, ms[i])
    ensures MessagesSize(sub, ms, visit) == MessagesSize(sub, ms, visit')
    decreases sub, |sub.fields| + 1, |ms|
  {
    if ms != [] {
      SizeFromOrder(sub, ms[0], 0, visit, visit');
      MessagesSizeOrder(sub, ms[1..], visit, visit');
    }
  }

  lemma {:induction false} SizeFromOrder(s: Schema, m: Message, i: nat, visit: Visit, visit': Visit)
    requires Typed(s, m) && Fair(visit) && Fair(visit') && i <= |s.fields|
    ensures SizeFrom(s, m, i, visit) == SizeFrom(s, m, i, visit')
    decreases s, |s.fields| - i
  {
    hide FieldSize;
    if i < |s.fields| {
      FieldSizeOrder(s.fields[i].kind, m[i], visit, visit');
      SizeFromOrder(s, m, i + 1, visit, visit');
    }
  }

  /**
    `Size` and `Marshal` may visit a map in different orders: the space computed by one is still
    exactly what the other fills.
   */
  lemma SizeIgnoresOrder(s: Schema, m: Message, visit: Visit, visit': Visit)
    requires ValidSchema(s) && Typed(s, m) && Fair(visit) && Fair(visit')
    ensures Size(s, m, visit) == |Marshal(s, m, visit')|
  {
    SizeFromOrder(s, m, 0, visit, visit');
    SizeIsLength(s, m, visit');
  }
}
