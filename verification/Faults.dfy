/**
  What `Unmarshal` refuses, and why: the error of every kind of broken record, wherever the loop
  stands, and what has happened to the receiver by then.
 */
module Faults {
  import opened Bits
  import opened Decoder
  import opened Entries
  import opened Errors
  import opened Merge
  import opened Records
  import opened Schemas
  import opened Skipper
  import opened Tags
  import opened Varints

  // ---------------------------------------------------------------- skipping

  /** A start tag and the whole fields behind it. */
  datatype Level = Level(open: Bytes, body: seq<WireField>)

  ghost predicate ValidLevels(levels: seq<Level>) {
    forall i :: 0 <= i < |levels| ==> IsTag(levels[i].open, 3) && AllWellFormed(levels[i].body)
  }

  /** The front of a field inside of which these groups are open. */
  function Opened(levels: seq<Level>): Bytes {
    if levels == [] then [] else levels[0].open + UnparseAll(levels[0].body) + Opened(levels[1..])
  }

  /** The loop goes on inside the open groups. */
  lemma {:induction false} SkipsOpened(levels: seq<Level>, rest: Bytes, at: nat, depth: nat)
    requires ValidLevels(levels) && at + |Opened(levels)| < TWO63
    ensures SkipFrom(Opened(levels) + rest, at, depth)
            == Further(|Opened(levels)|, SkipFrom(rest, at + |Opened(levels)|, depth + |levels|))
    decreases |levels|
  {
    hide SkipFrom, ReadVarint, NextToken, UnparseAll;
    if levels == [] {
      assert Opened(levels) + rest == rest;
    } else {
      var open, inner, behind := levels[0].open, UnparseAll(levels[0].body), Opened(levels[1..]) + rest;
      assert Opened(levels) + rest == open + (inner + behind);
      OpenToken(open, inner + behind, depth);
      SkipOnce(open + (inner + behind), inner + behind, at, depth, Token(|open|, depth + 1, Nil));
      SkipsFields(levels[0].body, behind, at + |open|, depth + 1);
      SkipsOpened(levels[1..], rest, at + |open| + |inner|, depth + 1);
    }
  }

  lemma OpenToken(open: Bytes, rest: Bytes, depth: nat)
    requires IsTag(open, 3)
    ensures open != [] && NextToken(open + rest, depth) == Token(|open|, depth + 1, Nil)
    ensures (open + rest)[|open|..] == rest
  {
    hide ReadVarint;
    VarintInFront(open, rest);
  }

  /** At index `at`, inside of `depth` groups, the tag `t` with `s` behind it cannot be passed over. */
  ghost predicate SkipStops(t: Bytes, s: Bytes, at: nat, depth: nat, err: Error)
    requires IsVarint(t)
  {
    var wireType, r := ReadVarint(t).value % 8, ReadVarint(s);
    var n := r.value % 0x1_0000_0000_0000_0000;
    || (wireType == 4 && depth == 0 && err == UnexpectedEndOfGroup)
    || (wireType in {6, 7} && err == IllegalWireType)
    || (wireType in {0, 2} && r.err != Nil && err == r.err)
    || (wireType == 2 && r.err == Nil && n >= 0x8000_0000_0000_0000 && err == InvalidLength)
    || (wireType == 2 && r.err == Nil && n < 0x8000_0000_0000_0000 && err == InvalidLength
        && at + |t| + r.n + n >= 0x8000_0000_0000_0000)
    || (wireType == 2 && r.err == Nil && at + |t| + r.n + n < 0x8000_0000_0000_0000 && err == UnexpectedEOF
        && depth > 0 && r.n + n > |s|)
    || (wireType == 1 && depth > 0 && |s| < 8 && err == UnexpectedEOF)
    || (wireType == 5 && depth > 0 && |s| < 4 && err == UnexpectedEOF)
  }

  lemma StopsHere(t: Bytes, s: Bytes, at: nat, depth: nat, err: Error)
    requires IsVarint(t) && SkipStops(t, s, at, depth, err) && at + |t| + 8 < TWO63
    ensures SkipFrom(t + s, at, depth) == Skipped(0, err)
  {
    hide ReadVarint;
    VarintInFront(t, s);
    NumberRead(ReadVarint(t).value);
  }

  /** Outside of groups, a scalar is passed over whether its payload is there or not. */
  lemma SkipScalar(t: Bytes, s: Bytes)
    requires IsVarint(t) && |t| + 8 < TWO63
    ensures var wireType, r := ReadVarint(t).value % 8, ReadVarint(s);
            var n := r.value % 0x1_0000_0000_0000_0000;
            && (wireType == 0 && r.err == Nil ==> SkipField(t + s) == Skipped(|t| + r.n, Nil))
            && (wireType == 1 ==> SkipField(t + s) == Skipped(|t| + 8, Nil))
            && (wireType == 5 ==> SkipField(t + s) == Skipped(|t| + 4, Nil))
            && (wireType == 2 && r.err == Nil && |t| + r.n + n < 0x8000_0000_0000_0000 ==>
                  SkipField(t + s) == Skipped(|t| + r.n + n, Nil))
  {
    hide ReadVarint;
    VarintInFront(t, s);
    NumberRead(ReadVarint(t).value);
  }

  /**
    A skip fails where the input ends inside open groups, at a broken tag, and at a tag that cannot be
    passed over; the error says which.
   */
  lemma SkipFails(levels: seq<Level>, t: Bytes, s: Bytes, err: Error)
    requires ValidLevels(levels) && |Opened(levels)| + |t| + 8 < TWO63
    ensures SkipField(Opened(levels)) == Skipped(0, UnexpectedEOF)
    ensures s != [] && ReadVarint(s).err == err != Nil ==> SkipField(Opened(levels) + s) == Skipped(0, err)
    ensures IsVarint(t) && SkipStops(t, s, |Opened(levels)|, |levels|, err) ==>
              SkipField(Opened(levels) + (t + s)) == Skipped(0, err)
  {
    hide Opened, ValidLevels, SkipStops, IsVarint, SkipFrom, ReadVarint, NextToken;
    var at := |Opened(levels)|;
    SkipsOpened(levels, [], 0, 0);
    assert Opened(levels) + [] == Opened(levels);
    SkipEnds(at, |levels|, s);
    SkipsOpened(levels, s, 0, 0);
    if IsVarint(t) && SkipStops(t, s, at, |levels|, err) {
      SkipsOpened(levels, t + s, 0, 0);
      StopsHere(t, s, at, |levels|, err);
    }
  }

  lemma SkipEnds(at: nat, depth: nat, s: Bytes)
    ensures SkipFrom([], at, depth) == Skipped(0, UnexpectedEOF)
    ensures s != [] && ReadVarint(s).err != Nil ==> SkipFrom(s, at, depth) == Skipped(0, ReadVarint(s).err)
  {
    hide ReadVarint;
  }

  // ---------------------------------------------------------------- tags

  /** A broken tag, an end tag, a number that is not positive: nothing is done. */
  lemma TagFaults(sc: Schema, m: Message, base: nat, t: Bytes, s: Bytes)
    requires Typed(sc, m)
    ensures s != [] && ReadVarint(s).err != Nil ==> Decode(sc, m, base, s) == Outcome(m, ReadVarint(s).err)
    ensures IsVarint(t) && ReadVarint(t).value % 8 == 4 ==>
              Decode(sc, m, base, t + s) == Outcome(m, EndGroupForNonGroup)
    ensures IsVarint(t) && ReadVarint(t).value % 8 != 4 && !(1 <= Number(ReadVarint(t).value) < 0x8000_0000) ==>
              Decode(sc, m, base, t + s) == Outcome(m, IllegalTag)
  {
    hide ReadVarint, FieldNumber, WireType, DecodeField, Typed;
    if IsVarint(t) {
      VarintInFront(t, s);
      NumberRead(ReadVarint(t).value);
    }
  }

  // ---------------------------------------------------------------- known fields

  /** The wire type of a kind. */
  function TypeOf(k: Kind): nat {
    match k
    case KBool => 0
    case KInt32 => 0
    case _ => 2
  }

  /** A field with a wire type that is not its own is refused. */
  lemma TypeFault(sc: Schema, m: Message, base: nat, j: nat, t: Bytes, wireType: nat, s: Bytes)
    requires ValidSchema(sc) && Typed(sc, m) && j < |sc.fields|
    requires IsTagOf(t, sc.fields[j].num, wireType) && wireType != 4 && wireType != TypeOf(sc.fields[j].kind)
    ensures Decode(sc, m, base, t + s) == Outcome(m, WrongWireType)
  {
    assert 1 <= sc.fields[j].num <= 15;
    FindAt(sc, j);
    hide ReadVarint, DecodeRecord, IsTagOf, ValidSchema;
    KnownRead(sc, m, base, j, t, wireType, s);
    assert m[j := m[j]] == m;
  }

  /** A broken varint leaves a bool alone, but an int32 has already been overwritten with what was read. */
  lemma VarintFault(sc: Schema, m: Message, base: nat, j: nat, t: Bytes, s: Bytes)
    requires ValidSchema(sc) && Typed(sc, m) && j < |sc.fields| && TypeOf(sc.fields[j].kind) == 0
    requires IsTagOf(t, sc.fields[j].num, 0) && ReadVarint(s).err != Nil
    ensures Decode(sc, m, base, t + s)
            == Outcome(if sc.fields[j].kind.KBool? then m else m[j := VInt32(ToInt32(ReadVarint(s).value))],
                       ReadVarint(s).err)
  {
    assert 1 <= sc.fields[j].num <= 15;
    FindAt(sc, j);
    hide ReadVarint, DecodeRecord, IsTagOf, ValidSchema, OrInto;
    KnownRead(sc, m, base, j, t, 0, s);
    OrIntoZero(ReadVarint(s).value);
    assert m[j := m[j]] == m;
  }

  /** What is wrong with a length at index `at`, in front of what is left of the input. */
  ghost predicate LengthFails(at: nat, s: Bytes, err: Error) {
    var r := ReadVarint(s);
    var n := r.value % 0x1_0000_0000_0000_0000;
    || (r.err != Nil && err == r.err)
    || (r.err == Nil && n >= 0x8000_0000_0000_0000 && err == InvalidLength)
    || (r.err == Nil && n < 0x8000_0000_0000_0000 && at + r.n + n >= 0x8000_0000_0000_0000 && err == InvalidLength)
    || (r.err == Nil && at + r.n + n < 0x8000_0000_0000_0000 && n > |s| - r.n && err == UnexpectedEOF)
  }

  lemma LengthRefused(at: nat, s: Bytes, err: Error)
    requires LengthFails(at, s, err)
    ensures err != Nil && Delimited(at, s).err == err
  {
    hide ReadVarint;
  }

  /** A field with a broken length is left alone. */
  lemma LengthFault(sc: Schema, m: Message, base: nat, j: nat, t: Bytes, s: Bytes, err: Error)
    requires ValidSchema(sc) && Typed(sc, m) && j < |sc.fields| && TypeOf(sc.fields[j].kind) == 2
    requires IsTagOf(t, sc.fields[j].num, 2) && LengthFails(base + |t|, s, err)
    ensures Decode(sc, m, base, t + s) == Outcome(m, err)
  {
    assert 1 <= sc.fields[j].num <= 15;
    FindAt(sc, j);
    hide ReadVarint, DecodeRecord, IsTagOf, ValidSchema, LengthFails, Delimited;
    KnownRead(sc, m, base, j, t, 2, s);
    LengthRefused(base + |t|, s, err);
    assert m[j := m[j]] == m;
  }

  // ---------------------------------------------------------------- unknown fields

  /** An unknown field that cannot be skipped, or that ends beyond the input. */
  lemma UnknownFault(sc: Schema, m: Message, base: nat, t: Bytes, s: Bytes)
    requires Typed(sc, m) && IsVarint(t) && ReadVarint(t).value % 8 != 4 && Unknown(sc, ReadVarint(t).value)
    ensures var k := SkipField(t + s);
            && (k.err != Nil ==> Decode(sc, m, base, t + s) == Outcome(m, k.err))
            && (k.err == Nil && base + k.n >= 0x8000_0000_0000_0000 ==>
                  Decode(sc, m, base, t + s) == Outcome(m, InvalidLength))
            && (k.err == Nil && base + k.n < 0x8000_0000_0000_0000 && k.n > |t + s| ==>
                  Decode(sc, m, base, t + s) == Outcome(m, UnexpectedEOF))
  {
    hide ReadVarint, FieldNumber, WireType, DecodeField, Typed, SkipField, Unknown;
    VarintInFront(t, s);
    NumberRead(ReadVarint(t).value);
    UnknownNotFound(sc, ReadVarint(t).value);
  }

  // ---------------------------------------------------------------- map entries

  /** What is wrong with the next field of an entry of which `room` bytes are left. */
  ghost predicate PartFails(at: nat, s: Bytes, room: int, err: Error) {
    || (ReadVarint(s).err != Nil && err == ReadVarint(s).err)
    || exists t, rest :: s == t + rest && IsVarint(t) && NumberFails(at, t, rest, room, err)
  }

  ghost predicate NumberFails(at: nat, t: Bytes, rest: Bytes, room: int, err: Error)
    requires IsVarint(t)
  {
    var num := Number(ReadVarint(t).value);
    if num == 1 then LengthFails(at + |t|, rest, err)
    else if num == 2 then ReadVarint(rest).err != Nil && err == ReadVarint(rest).err
    else
      var k := SkipField(t + rest);
      || (k.err != Nil && err == k.err)
      || (k.err == Nil && at + k.n >= 0x8000_0000_0000_0000 && err == InvalidLength)
      || (k.err == Nil && at + k.n < 0x8000_0000_0000_0000 && k.n > room && err == UnexpectedEOF)
  }

  lemma PartFault(at: nat, s: Bytes, room: int, key: Bytes, value: int32, err: Error)
    requires 0 < room <= |s| && PartFails(at, s, room, err)
    ensures err != Nil && DecodeEntryField(at, s, room, key, value).err == err
  {
    hide ReadVarint, FieldNumber, Delimited, SkipField, LengthFails, OrInto;
    if t, rest :| s == t + rest && IsVarint(t) && NumberFails(at, t, rest, room, err) {
      VarintInFront(t, rest);
      NumberRead(ReadVarint(t).value);
      if Number(ReadVarint(t).value) == 1 {
        LengthRefused(at + |t|, rest, err);
      }
    }
  }

  /** The parts all end inside the entry, and it goes on behind them. */
  ghost predicate EndInside(ps: seq<Part>, room: int) {
    ValidParts(ps) && |Parts(ps)| < room
  }

  /** The loop stops with the first field that is broken. */
  lemma {:induction false} PartsThenFault(
    base: nat, ps: seq<Part>, s: Bytes, room: int, key: Bytes, value: int32, err: Error)
    requires EndInside(ps, room) && room <= |Parts(ps) + s| && base + |Parts(ps)| < TWO63
    requires PartFails(base + |Parts(ps)|, s, room - |Parts(ps)|, err)
    ensures err != Nil && ReadEntry(base, Parts(ps) + s, room, key, value).err == err
    decreases |ps|
  {
    hide DecodeEntryField, OrInto, ValidPart, PartBytes, ReadVarint, PartFails;
    if ps == [] {
      assert Parts(ps) + s == s;
      PartFault(base, s, room, key, value, err);
    } else {
      var p, front, behind := ps[0], PartBytes(ps[0]), Parts(ps[1..]);
      PartNotEmpty(p);
      assert Parts(ps) + s == front + (behind + s);
      PartRead(base, p, behind + s, room, key, value);
      assert (front + (behind + s))[|front|..] == behind + s;
      var key' := if p.Key? then p.key else key;
      var value' := if p.Val? then OrInto(value, ReadVarint(p.value).value) else value;
      PartsThenFault(base + |front|, ps[1..], s, room - |front|, key', value', err);
    }
  }

  /** An entry with a broken field is not stored, whatever it held before. */
  lemma EntryFault(
    sc: Schema, m: Message, base: nat, j: nat, t: Bytes, len: Bytes, room: nat, ps: seq<Part>, s: Bytes, err: Error)
    requires ValidSchema(sc) && Typed(sc, m) && j < |sc.fields| && sc.fields[j].kind.KMap?
    requires IsTagOf(t, sc.fields[j].num, 2) && IsLength(len, room) && EndInside(ps, room)
    requires room <= |Parts(ps) + s| && base + |t| + |len| + |Parts(ps)| + room < TWO63
    requires PartFails(base + |t| + |len| + |Parts(ps)|, s, room - |Parts(ps)|, err)
    ensures Decode(sc, m, base, t + (len + (Parts(ps) + s))) == Outcome(m, err)
  {
    assert 1 <= sc.fields[j].num <= 15;
    FindAt(sc, j);
    hide ReadVarint, Decode, IsTagOf, IsLength, ValidSchema, PartFails, EndInside, Parts;
    EntryRecordRefused(sc, m, base, j, t, len, room, ps, s, err);
  }

  lemma EntryRecordRefused(
    sc: Schema, m: Message, base: nat, j: nat, t: Bytes, len: Bytes, room: nat, ps: seq<Part>, s: Bytes, err: Error)
    requires Typed(sc, m) && j < |sc.fields| && sc.fields[j].kind.KMap? && Find(sc, sc.fields[j].num) == j
    requires 1 <= sc.fields[j].num < 0x2000_0000 && IsTagOf(t, sc.fields[j].num, 2)
    requires IsLength(len, room) && EndInside(ps, room)
    requires room <= |Parts(ps) + s| && base + |t| + |len| + |Parts(ps)| + room < TWO63
    requires PartFails(base + |t| + |len| + |Parts(ps)|, s, room - |Parts(ps)|, err)
    ensures Decode(sc, m, base, t + (len + (Parts(ps) + s))) == Outcome(m, err)
  {
    hide ReadVarint, DecodeRecord, DecodeField, IsTagOf, IsLength, PartFails, EndInside, Parts, Find;
    var behind := len + (Parts(ps) + s);
    KnownRead(sc, m, base, j, t, 2, behind);
    EntryRefused(m[j], base + |t|, len, room, ps, s, err);
    assert m[j := m[j]] == m;
    assert DecodeRecord(sc, m, base, t + behind).m == m && t + behind != [];
  }

  lemma EntryRefused(v: Value, base: nat, len: Bytes, room: nat, ps: seq<Part>, s: Bytes, err: Error)
    requires v.VMap? && IsLength(len, room) && EndInside(ps, room)
    requires room <= |Parts(ps) + s| && base + |len| + |Parts(ps)| + room < TWO63
    requires PartFails(base + |len| + |Parts(ps)|, s, room - |Parts(ps)|, err)
    ensures err != Nil
    ensures var f := DecodeField(KMap, v, 2, base, len + (Parts(ps) + s)); f.v == v && f.err == err
  {
    hide ReadVarint, Delimited, ReadEntry, Payload, Parts, PartFails, EndInside;
    var behind := Parts(ps) + s;
    assert len + behind == len + behind[..room] + behind[room..];
    LengthInFront(base, len, behind[..room], behind[room..]);
    assert (len + behind)[|len|..] == behind;
    PartsThenFault(base + |len|, ps, s, room, [], 0, err);
  }

  // ---------------------------------------------------------------- behind an accepted prefix

  /** Behind an accepted prefix, the errors above are those of the whole input. */
  lemma FaultBehind(sc: Schema, m: Message, a: Bytes, s: Bytes)
    requires Typed(sc, m) && Unmarshal(sc, m, a).err == Nil
    ensures Unmarshal(sc, m, a + s) == Decode(sc, Unmarshal(sc, m, a).m, |a|, s)
  {
    hide Decode, Typed;
    DecodeConcat(sc, m, 0, a, s);
  }
}
