/**
  The messages that `Unmarshal` accepts: sequences of records, with tags and lengths minimal or not,
  and what each record does to the receiver. The grammar is defined by what a varint is; only the
  content of a nested message is what `Unmarshal` makes of it.
 */
module Records {
  import opened Bits
  import opened Decoder
  import opened Entries
  import opened Errors
  import opened Merge
  import opened Schemas
  import opened Skipper
  import opened Tags
  import opened Varints

  /** One record of a message. */
  datatype Rec =
    | RecVarint(tag: Bytes, x: Bytes)
    | RecChunk(tag: Bytes, len: Bytes, payload: Bytes)
    | RecEntry(tag: Bytes, len: Bytes, ps: seq<Part>)  // a map entry within its length
    | RecOther(f: WireField)

  /** The bytes behind the tag. */
  function Behind(r: Rec): Bytes
    requires !r.RecOther?
  {
    match r
    case RecVarint(_, x) => x
    case RecChunk(_, len, payload) => len + payload
    case RecEntry(_, len, ps) => len + Parts(ps)
  }

  function Spell(r: Rec): Bytes {
    if r.RecOther? then Unparse(r.f) else r.tag + Behind(r)
  }

  function ExpectedType(r: Rec): nat {
    if r.RecVarint? then 0 else 2
  }

  /** The position of the field that a tag means, or -1. */
  ghost function Position(sc: Schema, tag: Bytes): (j: int)
    ensures -1 <= j < |sc.fields|
  {
    Find(sc, Number(ReadVarint(tag).value))
  }

  /** A record that fits to its field. */
  ghost predicate ValidRec(sc: Schema, r: Rec) {
    if r.RecOther? then WellFormed(r.f) && Unknown(sc, TagOf(r.f))
    else
      var j := Position(sc, r.tag);
      && j >= 0 && IsTagOf(r.tag, sc.fields[j].num, ExpectedType(r))
      && 1 <= sc.fields[j].num < 0x2000_0000
      && FitsKind(sc.fields[j].kind, r)
  }

  ghost predicate FitsKind(k: Kind, r: Rec)
    requires !r.RecOther?
  {
    match r
    case RecVarint(_, x) => (k.KBool? || k.KInt32?) && IsVarint(x)
    case RecChunk(_, len, payload) =>
      (k.KString? || k.KStrings? || k.KMessage? || k.KMessages?) && IsLength(len, |payload|)
    case RecEntry(_, len, ps) => k.KMap? && IsLength(len, |Parts(ps)|) && ValidParts(ps)
  }

  /** The field after the record; the error is that of a nested message. */
  ghost function Field(k: Kind, v: Value, r: Rec): (o: FieldOutcome)
    requires TypedValue(k, v) && !r.RecOther? && FitsKind(k, r)
    ensures TypedValue(k, o.v)
  {
    match k
    case KBool => FieldOutcome(VBool(ReadVarint(r.x).value % 0x1_0000_0000_0000_0000 != 0), Nil)
    case KInt32 => FieldOutcome(VInt32(ToInt32(ReadVarint(r.x).value)), Nil)
    case KString => FieldOutcome(VString(r.payload), Nil)
    case KStrings => FieldOutcome(VStrings(v.strs + [r.payload]), Nil)
    case KMessage(sub) =>
      var o := Unmarshal(sub, v.m, r.payload);
      FieldOutcome(VMessage(o.m), o.err)
    case KMessages(sub) =>
      var o := Unmarshal(sub, Empty(sub), r.payload);
      FieldOutcome(VMessages(v.ms + [o.m]), o.err)
    case KMap => FieldOutcome(VMap(v.entries[LastKey([], r.ps) := OrAll(0, Vals(r.ps))]), Nil)
  }

  datatype FieldOutcome = FieldOutcome(v: Value, err: Error)

  /** What a record does: it sets its field and no other. */
  ghost function Meaning(sc: Schema, m: Message, r: Rec): (o: Outcome)
    requires Typed(sc, m) && ValidRec(sc, r)
    ensures Typed(sc, o.m)
  {
    if r.RecOther? then Outcome(m, Nil)
    else
      var j := Position(sc, r.tag);
      var o := Field(sc.fields[j].kind, m[j], r);
      Outcome(m[j := o.v], o.err)
  }

  // ---------------------------------------------------------------- records ==> loop

  /** A tag of a known field, minimal or not, is followed by what the field makes of the rest. */
  lemma KnownRead(sc: Schema, m: Message, base: nat, j: nat, tag: Bytes, wireType: nat, s: Bytes)
    requires Typed(sc, m) && j < |sc.fields| && Find(sc, sc.fields[j].num) == j
    requires 1 <= sc.fields[j].num < 0x2000_0000 && IsTagOf(tag, sc.fields[j].num, wireType) && wireType != 4
    ensures tag != [] && |m| == |sc.fields| && TypedValue(sc.fields[j].kind, m[j])
    ensures var f := DecodeField(sc.fields[j].kind, m[j], wireType, base + |tag|, s);
            DecodeRecord(sc, m, base, tag + s) == Step(m[j := f.v], |tag| + f.n, f.err)
  {
    hide ReadVarint, FieldNumber, WireType, DecodeField;
    VarintInFront(tag, s);
    NumberRead(ReadVarint(tag).value);
  }

  /** An entry may announce less than its last key or value takes. */
  lemma EntryFieldRead(v: Value, base: nat, len: Bytes, room: nat, ps: seq<Part>, rest: Bytes)
    requires v.VMap? && IsLength(len, room) && ValidParts(ps) && Fits(ps, room)
    requires room <= |Parts(ps) + rest|
    requires base + |len| + room < TWO63 && base + |len| + |Parts(ps)| < TWO63
    ensures DecodeField(KMap, v, 2, base, len + (Parts(ps) + rest))
            == FieldStep(VMap(v.entries[LastKey([], ps) := OrAll(0, Vals(ps))]), |len| + room, Nil)
  {
    hide ReadVarint, Delimited, ReadEntry, Payload, Parts, LastKey, OrAll, Vals, Fits;
    var behind := Parts(ps) + rest;
    assert len + behind == len + behind[..room] + behind[room..];
    LengthInFront(base, len, behind[..room], behind[room..]);
    assert (len + behind)[|len|..] == behind;
    PartsRead(base + |len|, ps, rest, room, [], 0);
  }

  /** What is behind the tag is read as the field that the record means. */
  lemma BehindRead(k: Kind, v: Value, base: nat, r: Rec, rest: Bytes)
    requires TypedValue(k, v) && !r.RecOther? && FitsKind(k, r) && base + |Behind(r)| < TWO63
    ensures var o := Field(k, v, r);
            DecodeField(k, v, ExpectedType(r), base, Behind(r) + rest) == FieldStep(o.v, |Behind(r)|, o.err)
  {
    hide ReadVarint, Delimited, Decode, Payload, Typed, OrInto, ReadEntry, Parts, LastKey, OrAll, Vals, Fits;
    match r
    case RecVarint(_, x) =>
      VarintInFront(x, rest);
      OrIntoZero(ReadVarint(x).value);
    case RecChunk(_, len, payload) =>
      LengthInFront(base, len, payload, rest);
    case RecEntry(_, len, ps) =>
      assert Behind(r) + rest == len + (Parts(ps) + rest);
      FitsExactly(ps);
      EntryFieldRead(v, base, len, |Parts(ps)|, ps, rest);
  }

  /** The loop reads a record at the front of its input, and does what the record means. */
  lemma RecRead(sc: Schema, m: Message, base: nat, r: Rec, rest: Bytes)
    requires Typed(sc, m) && ValidRec(sc, r) && base + |Spell(r)| < TWO63
    ensures Spell(r) != []
    ensures var o := Meaning(sc, m, r);
            DecodeRecord(sc, m, base, Spell(r) + rest) == Step(o.m, |Spell(r)|, o.err)
  {
    hide ReadVarint, DecodeRecord, DecodeField, Field, FitsKind, Behind, IsTagOf, WellFormed, Unknown, Unparse;
    if r.RecOther? {
      RecordUnknown(sc, m, base, r.f, rest);
    } else {
      var j := Position(sc, r.tag);
      assert Spell(r) + rest == r.tag + (Behind(r) + rest);
      KnownRead(sc, m, base, j, r.tag, ExpectedType(r), Behind(r) + rest);
      BehindRead(sc.fields[j].kind, m[j], base + |r.tag|, r, rest);
    }
  }

  /** The same for an entry that announces less than its parts take: the loop goes on within them. */
  lemma EntryRead(
    sc: Schema, m: Message, base: nat, j: nat, tag: Bytes, len: Bytes, room: nat, ps: seq<Part>, rest: Bytes)
    requires Typed(sc, m) && j < |sc.fields| && sc.fields[j].kind.KMap? && Find(sc, sc.fields[j].num) == j
    requires 1 <= sc.fields[j].num < 0x2000_0000 && IsTagOf(tag, sc.fields[j].num, 2)
    requires IsLength(len, room) && ValidParts(ps) && Fits(ps, room) && room <= |Parts(ps) + rest|
    requires base + |tag| + |len| + room < TWO63 && base + |tag| + |len| + |Parts(ps)| < TWO63
    ensures m[j].VMap?
    ensures DecodeRecord(sc, m, base, tag + (len + (Parts(ps) + rest)))
            == Step(m[j := VMap(m[j].entries[LastKey([], ps) := OrAll(0, Vals(ps))])], |tag| + |len| + room, Nil)
  {
    hide ReadVarint, DecodeField, DecodeRecord, Parts, Fits, LastKey, OrAll, Vals, IsTagOf, Find;
    KnownRead(sc, m, base, j, tag, 2, len + (Parts(ps) + rest));
    EntryFieldRead(m[j], base + |tag|, len, room, ps, rest);
  }

  /** A record alone. */
  lemma RecAlone(sc: Schema, m: Message, r: Rec)
    requires Typed(sc, m) && ValidRec(sc, r) && |Spell(r)| < TWO63
    ensures Unmarshal(sc, m, Spell(r)) == Meaning(sc, m, r)
  {
    hide DecodeRecord, Typed, ValidRec, Meaning, Spell;
    var s, o := Spell(r), Meaning(sc, m, r);
    RecRead(sc, m, 0, r, []);
    assert s + [] == s && s[|s|..] == [];
    assert DecodeRecord(sc, m, 0, s) == Step(o.m, |s|, o.err);
    assert o.err == Nil ==> Decode(sc, o.m, |s|, s[|s|..]) == o;
  }

  // ---------------------------------------------------------------- loop ==> records

  /** A field that was read without an error, if it is not a map, is one of the above. */
  lemma FieldFound(k: Kind, v: Value, wireType: nat, base: nat, tag: Bytes, s: Bytes) returns (r: Rec)
    requires TypedValue(k, v) && !k.KMap? && DecodeField(k, v, wireType, base, s).err == Nil
    ensures !r.RecOther? && r.tag == tag && FitsKind(k, r) && wireType == ExpectedType(r)
    ensures var st := DecodeField(k, v, wireType, base, s);
            Spell(r) == tag + s[..st.n] && Field(k, v, r) == FieldOutcome(st.v, Nil)
  {
    hide ReadVarint, Decode, Typed;
    VarintFound(s);
    if k.KBool? || k.KInt32? {
      r := RecVarint(tag, s[..ReadVarint(s).n]);
      OrIntoZero(ReadVarint(s).value);
    } else {
      var c := Delimited(base, s);
      r := RecChunk(tag, s[..c.head], Payload(s, c));
      assert s[..c.head + c.len] == s[..c.head] + Payload(s, c);
    }
  }

  lemma RecFound(sc: Schema, m: Message, base: nat, s: Bytes) returns (r: Rec)
    requires ValidSchema(sc) && Typed(sc, m) && NoMap(sc)
    requires s != [] && |s| < TWO63 && DecodeRecord(sc, m, base, s).err == Nil
    ensures ValidRec(sc, r) && Spell(r) == s[..DecodeRecord(sc, m, base, s).n]
    ensures Meaning(sc, m, r) == Outcome(DecodeRecord(sc, m, base, s).m, Nil)
  {
    hide ReadVarint, FieldNumber, DecodeField, Field, WellFormed, SkipFrom, Unparse, FitsKind;
    var st, tag := DecodeRecord(sc, m, base, s), ReadVarint(s);
    NumberRead(tag.value);
    var j := Find(sc, FieldNumber(tag.value));
    if j < 0 {
      UnknownNotFound(sc, tag.value);
      var f := ParseField(s);
      TagInFront(f, s[st.n..]);
      assert Unparse(f) + s[st.n..] == s;
      r := RecOther(f);
    } else {
      VarintFound(s);
      var rest := s[tag.n..];
      r := FieldFound(sc.fields[j].kind, m[j], WireType(tag.value), base + tag.n, s[..tag.n], rest);
      assert s[..st.n] == s[..tag.n] + rest[..st.n - tag.n];
    }
  }

  // ---------------------------------------------------------------- whole messages

  function SpellAll(rs: seq<Rec>): Bytes {
    if rs == [] then [] else Spell(rs[0]) + SpellAll(rs[1..])
  }

  /** The records fit to their fields, and one after the other they turn `m` into `m'`. */
  ghost predicate Run(sc: Schema, m: Message, rs: seq<Rec>, m': Message)
    requires Typed(sc, m)
    decreases |rs|
  {
    if rs == [] then m' == m
    else
      && ValidRec(sc, rs[0])
      && Meaning(sc, m, rs[0]).err == Nil
      && Run(sc, Meaning(sc, m, rs[0]).m, rs[1..], m')
  }

  /** The loop runs through the records and goes on behind them. */
  lemma {:induction false} RunRead(sc: Schema, m: Message, base: nat, rs: seq<Rec>, m': Message)
    requires Typed(sc, m) && Run(sc, m, rs, m') && base + |SpellAll(rs)| < TWO63
    ensures Decode(sc, m, base, SpellAll(rs)) == Outcome(m', Nil)
    decreases |rs|
  {
    hide DecodeRecord, Typed, ValidRec, Meaning, Spell;
    if rs != [] {
      var front, rest := Spell(rs[0]), SpellAll(rs[1..]);
      RecRead(sc, m, base, rs[0], rest);
      assert (front + rest)[|front|..] == rest;
      RunRead(sc, Meaning(sc, m, rs[0]).m, base + |front|, rs[1..], m');
    }
  }

  lemma {:induction false} RunFound(sc: Schema, m: Message, base: nat, s: Bytes) returns (rs: seq<Rec>)
    requires ValidSchema(sc) && Typed(sc, m) && NoMap(sc) && |s| < TWO63 && Decode(sc, m, base, s).err == Nil
    ensures SpellAll(rs) == s && Run(sc, m, rs, Decode(sc, m, base, s).m)
    decreases |s|
  {
    hide DecodeRecord, Typed, ValidSchema, NoMap, ValidRec, Meaning, Spell;
    rs := [];
    if s != [] {
      var st := DecodeRecord(sc, m, base, s);
      var r := RecFound(sc, m, base, s);
      rs := RunFound(sc, st.m, base + st.n, s[st.n..]);
      assert ([r] + rs)[1..] == rs;
      assert s == s[..st.n] + s[st.n..];
      rs := [r] + rs;
    }
  }

  // ---------------------------------------------------------------- main results

  /** Every sequence of records, map entries included, is accepted and means what its records mean. */
  lemma RecordsAccepted(sc: Schema, m: Message, rs: seq<Rec>, m': Message)
    requires Typed(sc, m) && Run(sc, m, rs, m') && |SpellAll(rs)| < TWO63
    ensures Unmarshal(sc, m, SpellAll(rs)) == Outcome(m', Nil)
  {
    hide Decode, Typed, Run, SpellAll;
    RunRead(sc, m, 0, rs, m');
  }

  /** Without map fields, nothing else is accepted. */
  lemma UnmarshalIsGrammar(sc: Schema, m: Message, s: Bytes, m': Message)
    requires ValidSchema(sc) && Typed(sc, m) && NoMap(sc) && |s| < TWO63
    ensures Unmarshal(sc, m, s) == Outcome(m', Nil) <==> exists rs :: SpellAll(rs) == s && Run(sc, m, rs, m')
  {
    hide Decode, Typed, ValidSchema, NoMap, Run, SpellAll;
    if Unmarshal(sc, m, s) == Outcome(m', Nil) {
      var rs := RunFound(sc, m, 0, s);
    }
    forall rs | SpellAll(rs) == s && Run(sc, m, rs, m')
      ensures Unmarshal(sc, m, s) == Outcome(m', Nil)
    {
      RunRead(sc, m, 0, rs, m');
    }
  }

  // ---------------------------------------------------------------- one record on its own

  /** Nothing but one record: this tag, minimal or not, with a length and these bytes. */
  ghost predicate IsChunk(d: Bytes, tag: nat, s: Bytes) {
    exists t, l :: ChunkOf(d, tag, s, t, l)
  }

  ghost predicate ChunkOf(d: Bytes, tag: nat, s: Bytes, t: Bytes, l: Bytes) {
    d == t + (l + s) && IsVarint(t) && ReadVarint(t).value == tag && IsLength(l, |s|)
  }

  /** Nothing but one record: this tag, minimal or not, with a varint of this value. */
  ghost predicate IsNumber(d: Bytes, tag: nat, v: nat) {
    exists t, x :: NumberOf(d, tag, v, t, x)
  }

  ghost predicate NumberOf(d: Bytes, tag: nat, v: nat, t: Bytes, x: Bytes) {
    d == t + x && IsVarint(t) && ReadVarint(t).value == tag && IsVarint(x) && ReadVarint(x).value == v
  }

  /** Nothing but one well-formed field with a number that is not among these. */
  ghost predicate IsForeign(d: Bytes, nums: set<nat>) {
    exists f :: WellFormed(f) && d == Unparse(f) && 1 <= Number(TagOf(f)) < 0x8000_0000 && Number(TagOf(f)) !in nums
  }

  lemma ChunkIsShorter(d: Bytes, tag: nat, s: Bytes)
    requires IsChunk(d, tag, s)
    ensures |s| <= |d|
  {
    hide ReadVarint;
  }

  lemma KnownIsValid(sc: Schema, j: nat, r: Rec)
    requires j < |sc.fields| && 1 <= sc.fields[j].num <= 15 && Find(sc, sc.fields[j].num) == j && !r.RecOther?
    requires IsTagOf(r.tag, sc.fields[j].num, ExpectedType(r)) && FitsKind(sc.fields[j].kind, r)
    ensures Position(sc, r.tag) == j && ValidRec(sc, r)
  {
    hide ReadVarint, Find, FitsKind;
  }

  lemma ChunkParts(d: Bytes, num: nat, s: Bytes, t: Bytes, l: Bytes)
    requires 1 <= num <= 15 && ChunkOf(d, num * 8 + 2, s, t, l)
    ensures IsTagOf(t, num, 2) && IsLength(l, |s|) && Spell(RecChunk(t, l, s)) == d
    ensures forall ps :: Parts(ps) == s ==> Spell(RecEntry(t, l, ps)) == d
  {
    hide ReadVarint, Parts;
    TagRead(num, 2);
  }

  lemma ChunkIsRec(sc: Schema, j: nat, d: Bytes, s: Bytes) returns (r: Rec)
    requires j < |sc.fields| && 1 <= sc.fields[j].num <= 15 && Find(sc, sc.fields[j].num) == j
    requires IsChunk(d, sc.fields[j].num * 8 + 2, s)
    requires var k := sc.fields[j].kind; k.KString? || k.KStrings? || k.KMessage? || k.KMessages?
    ensures r.RecChunk? && r.payload == s && Spell(r) == d && Position(sc, r.tag) == j && ValidRec(sc, r)
  {
    hide ChunkOf, Spell, IsTagOf, IsLength, Find, ValidRec, Position;
    var num := sc.fields[j].num;
    var t, l :| ChunkOf(d, num * 8 + 2, s, t, l);
    ChunkParts(d, num, s, t, l);
    r := RecChunk(t, l, s);
    KnownIsValid(sc, j, r);
  }

  lemma StringAlone(sc: Schema, m: Message, j: nat, d: Bytes, s: Bytes)
    requires ValidSchema(sc) && Typed(sc, m) && j < |sc.fields| && |d| < TWO63
    requires IsChunk(d, sc.fields[j].num * 8 + 2, s)
    ensures sc.fields[j].kind.KString? ==> Unmarshal(sc, m, d) == Outcome(m[j := VString(s)], Nil)
    ensures sc.fields[j].kind.KStrings? ==>
              m[j].VStrings? && Unmarshal(sc, m, d) == Outcome(m[j := VStrings(m[j].strs + [s])], Nil)
  {
    if sc.fields[j].kind.KString? || sc.fields[j].kind.KStrings? {
      FindAt(sc, j);
      var r := ChunkIsRec(sc, j, d, s);
      hide Decode, ValidSchema, ValidRec, Spell, Position, IsChunk;
      RecAlone(sc, m, r);
    }
  }

  lemma MessageAlone(sc: Schema, m: Message, j: nat, d: Bytes, s: Bytes)
    requires ValidSchema(sc) && Typed(sc, m) && j < |sc.fields| && sc.fields[j].kind.KMessage? && |d| < TWO63
    requires IsChunk(d, sc.fields[j].num * 8 + 2, s)
    ensures var sub := sc.fields[j].kind.sub;
            && m[j].VMessage? && Typed(sub, m[j].m)
            && var o := Unmarshal(sub, m[j].m, s);
               Unmarshal(sc, m, d) == Outcome(m[j := VMessage(o.m)], o.err)
  {
    FindAt(sc, j);
    var r := ChunkIsRec(sc, j, d, s);
    hide Decode, Unmarshal, ValidSchema, ValidRec, Spell, Position, IsChunk;
    RecAlone(sc, m, r);
  }

  lemma ElementAlone(sc: Schema, m: Message, j: nat, d: Bytes, s: Bytes)
    requires ValidSchema(sc) && Typed(sc, m) && j < |sc.fields| && sc.fields[j].kind.KMessages? && |d| < TWO63
    requires IsChunk(d, sc.fields[j].num * 8 + 2, s)
    ensures var sub := sc.fields[j].kind.sub;
            var o := Unmarshal(sub, Empty(sub), s);
            m[j].VMessages? && Unmarshal(sc, m, d) == Outcome(m[j := VMessages(m[j].ms + [o.m])], o.err)
  {
    FindAt(sc, j);
    var r := ChunkIsRec(sc, j, d, s);
    hide Decode, Unmarshal, ValidSchema, ValidRec, Spell, Position, IsChunk, Empty;
    RecAlone(sc, m, r);
  }

  lemma EntryIsRec(sc: Schema, j: nat, d: Bytes, ps: seq<Part>) returns (r: Rec)
    requires j < |sc.fields| && 1 <= sc.fields[j].num <= 15 && Find(sc, sc.fields[j].num) == j
    requires sc.fields[j].kind.KMap? && ValidParts(ps) && IsChunk(d, sc.fields[j].num * 8 + 2, Parts(ps))
    ensures r.RecEntry? && r.ps == ps && Spell(r) == d && Position(sc, r.tag) == j && ValidRec(sc, r)
  {
    hide ChunkOf, Spell, IsTagOf, IsLength, Find, ValidRec, Position, Parts, ValidParts;
    var num := sc.fields[j].num;
    var t, l :| ChunkOf(d, num * 8 + 2, Parts(ps), t, l);
    ChunkParts(d, num, Parts(ps), t, l);
    r := RecEntry(t, l, ps);
    KnownIsValid(sc, j, r);
  }

  lemma EntryAlone(sc: Schema, m: Message, j: nat, d: Bytes, ps: seq<Part>)
    requires ValidSchema(sc) && Typed(sc, m) && j < |sc.fields| && sc.fields[j].kind.KMap? && |d| < TWO63
    requires ValidParts(ps) && IsChunk(d, sc.fields[j].num * 8 + 2, Parts(ps))
    ensures m[j].VMap?
    ensures Unmarshal(sc, m, d) == Outcome(m[j := VMap(m[j].entries[LastKey([], ps) := OrAll(0, Vals(ps))])], Nil)
  {
    FindAt(sc, j);
    var r := EntryIsRec(sc, j, d, ps);
    hide Decode, Unmarshal, ValidSchema, ValidRec, Spell, Position, IsChunk, Parts, LastKey, OrAll, Vals, ValidParts;
    RecAlone(sc, m, r);
  }

  lemma NumberIsRec(sc: Schema, j: nat, d: Bytes, v: nat) returns (r: Rec)
    requires j < |sc.fields| && 1 <= sc.fields[j].num <= 15 && Find(sc, sc.fields[j].num) == j
    requires (sc.fields[j].kind.KBool? || sc.fields[j].kind.KInt32?) && IsNumber(d, sc.fields[j].num * 8, v)
    ensures r.RecVarint? && ReadVarint(r.x).value == v && Spell(r) == d && Position(sc, r.tag) == j && ValidRec(sc, r)
  {
    hide ReadVarint, Find, ValidRec, Position;
    var num := sc.fields[j].num;
    var t, x :| NumberOf(d, num * 8, v, t, x);
    TagRead(num, 0);
    r := RecVarint(t, x);
    KnownIsValid(sc, j, r);
  }

  lemma NumberAlone(sc: Schema, m: Message, j: nat, d: Bytes, v: nat)
    requires ValidSchema(sc) && Typed(sc, m) && j < |sc.fields| && |d| < TWO63
    requires IsNumber(d, sc.fields[j].num * 8, v)
    ensures sc.fields[j].kind.KBool? ==>
              Unmarshal(sc, m, d) == Outcome(m[j := VBool(v % 0x1_0000_0000_0000_0000 != 0)], Nil)
    ensures sc.fields[j].kind.KInt32? ==> Unmarshal(sc, m, d) == Outcome(m[j := VInt32(ToInt32(v))], Nil)
  {
    if sc.fields[j].kind.KBool? || sc.fields[j].kind.KInt32? {
      FindAt(sc, j);
      var r := NumberIsRec(sc, j, d, v);
      hide ReadVarint, Decode, Unmarshal, ValidSchema, ValidRec, Spell, Position, IsNumber;
      RecAlone(sc, m, r);
    }
  }

  lemma ForeignAlone(sc: Schema, m: Message, d: Bytes, nums: set<nat>)
    requires Typed(sc, m) && |d| < TWO63 && IsForeign(d, nums)
    requires forall i :: 0 <= i < |sc.fields| ==> sc.fields[i].num in nums
    ensures Unmarshal(sc, m, d) == Outcome(m, Nil)
  {
    var f :| WellFormed(f) && d == Unparse(f) && 1 <= Number(TagOf(f)) < 0x8000_0000 && Number(TagOf(f)) !in nums;
    hide WellFormed, Unparse, Decode, Typed;
    DecodeUnknown(sc, m, 0, f);
  }
}
