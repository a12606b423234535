/**
  What the loop over a map entry accepts, and what it makes of it: any keys, values and unknown fields
  in any order, with tags and lengths minimal or not.
 */
module Entries {
  import opened Bits
  import opened Decoder
  import opened Errors
  import opened Merge
  import opened Skipper
  import opened Tags
  import opened Varints

  /** One field of a map entry. */
  datatype Part =
    | Key(tag: Bytes, len: Bytes, key: Bytes)
    | Val(tag: Bytes, value: Bytes)
    | Other(f: WireField)

  /** Keys and values are known by their numbers alone, whatever their wire types are. */
  ghost predicate ValidPart(p: Part) {
    match p
    case Key(tag, len, key) => IsVarint(tag) && Number(ReadVarint(tag).value) == 1 && IsLength(len, |key|)
    case Val(tag, value) => IsVarint(tag) && Number(ReadVarint(tag).value) == 2 && IsVarint(value)
    case Other(f) => WellFormed(f) && Number(TagOf(f)) != 1 && Number(TagOf(f)) != 2
  }

  ghost predicate ValidParts(ps: seq<Part>) {
    forall i :: 0 <= i < |ps| ==> ValidPart(ps[i])
  }

  function PartBytes(p: Part): Bytes {
    match p
    case Key(tag, len, key) => tag + (len + key)
    case Val(tag, value) => tag + value
    case Other(f) => Unparse(f)
  }

  /** The bytes of an entry. */
  function Parts(ps: seq<Part>): Bytes {
    if ps == [] then [] else PartBytes(ps[0]) + Parts(ps[1..])
  }

  /** The last key, or the given one. */
  function LastKey(key: Bytes, ps: seq<Part>): Bytes
    decreases |ps|
  {
    if ps == [] then key else LastKey(if ps[0].Key? then ps[0].key else key, ps[1..])
  }

  /** The values, before they are cut off to 32 bits. */
  function Vals(ps: seq<Part>): seq<nat> {
    if ps == [] then []
    else (if ps[0].Val? then [ReadVarint(ps[0].value).value] else []) + Vals(ps[1..])
  }

  /** All values or-ed into `acc`. */
  function OrAll(acc: int32, vs: seq<nat>): int32
    decreases |vs|
  {
    if vs == [] then acc else OrAll(OrInto(acc, vs[0]), vs[1..])
  }

  /**
    The parts begin inside an entry that announces `room` bytes, and together they fill it; the key or
    value at its end may reach beyond it, an unknown field may not.
   */
  ghost predicate Fits(ps: seq<Part>, room: int) {
    if ps == [] then room <= 0
    else
      && room > 0
      && (ps[0].Other? ==> |PartBytes(ps[0])| <= room)
      && Fits(ps[1..], room - |PartBytes(ps[0])|)
  }

  lemma {:induction false} FitsExactly(ps: seq<Part>)
    requires ValidParts(ps)
    ensures Fits(ps, |Parts(ps)|)
  {
    hide ValidPart, PartBytes;
    if ps != [] {
      PartNotEmpty(ps[0]);
      FitsExactly(ps[1..]);
    }
  }

  lemma PartNotEmpty(p: Part)
    requires ValidPart(p)
    ensures PartBytes(p) != []
  {
    if p.Other? {
      TagInFront(p.f, []);
    }
  }

  // ---------------------------------------------------------------- parts ==> loop

  /** One round of the loop reads one part. */
  lemma PartRead(base: nat, p: Part, rest: Bytes, room: int, key: Bytes, value: int32)
    requires ValidPart(p) && 0 < room <= |PartBytes(p) + rest|
    requires p.Other? ==> |PartBytes(p)| <= room
    requires base + |PartBytes(p)| < TWO63
    ensures DecodeEntryField(base, PartBytes(p) + rest, room, key, value)
            == EntryStep(if p.Key? then p.key else key,
                         if p.Val? then OrInto(value, ReadVarint(p.value).value) else value, |PartBytes(p)|, Nil)
  {
    hide ReadVarint, FieldNumber, OrInto, Delimited, Payload, SkipFrom, WellFormed, Unparse;
    match p
    case Key(tag, len, k) =>
      assert PartBytes(p) + rest == tag + (len + k + rest);
      VarintInFront(tag, len + k + rest);
      NumberRead(ReadVarint(tag).value);
      LengthInFront(base + |tag|, len, k, rest);
    case Val(tag, x) =>
      assert PartBytes(p) + rest == tag + (x + rest);
      VarintInFront(tag, x + rest);
      NumberRead(ReadVarint(tag).value);
      VarintInFront(x, rest);
    case Other(f) =>
      TagInFront(f, rest);
      NumberRead(TagOf(f));
      SkipsField(f, rest, 0, 0);
  }

  /** The loop reads all of them, whatever follows. */
  lemma {:induction false} PartsRead(base: nat, ps: seq<Part>, rest: Bytes, room: int, key: Bytes, value: int32)
    requires ValidParts(ps) && Fits(ps, room) && base + |Parts(ps)| < TWO63
    requires room <= |Parts(ps) + rest|
    ensures ReadEntry(base, Parts(ps) + rest, room, key, value)
            == Entry(LastKey(key, ps), OrAll(value, Vals(ps)), Nil)
    decreases |ps|
  {
    hide DecodeEntryField, OrInto, ValidPart, PartBytes, ReadVarint;
    if ps != [] {
      var p, front, behind := ps[0], PartBytes(ps[0]), Parts(ps[1..]);
      PartNotEmpty(p);
      assert Parts(ps) + rest == front + (behind + rest);
      PartRead(base, p, behind + rest, room, key, value);
      assert (front + (behind + rest))[|front|..] == behind + rest;
      var key' := if p.Key? then p.key else key;
      var value' := if p.Val? then OrInto(value, ReadVarint(p.value).value) else value;
      PartsRead(base + |front|, ps[1..], rest, room - |front|, key', value');
      ValsFirst(ps, value);
    }
  }

  lemma ValsFirst(ps: seq<Part>, value: int32)
    requires ps != []
    ensures OrAll(value, Vals(ps))
            == OrAll(if ps[0].Val? then OrInto(value, ReadVarint(ps[0].value).value) else value, Vals(ps[1..]))
  {
    hide OrInto, ReadVarint;
    var rest := Vals(ps[1..]);
    if ps[0].Val? {
      assert ([ReadVarint(ps[0].value).value] + rest)[1..] == rest;
    } else {
      assert [] + rest == rest;
    }
  }

  // ---------------------------------------------------------------- loop ==> parts

  /** A round that succeeds has read one part. */
  lemma PartFound(base: nat, s: Bytes, room: int, key: Bytes, value: int32) returns (p: Part)
    requires 0 < room <= |s| && DecodeEntryField(base, s, room, key, value).err == Nil
    ensures var n := DecodeEntryField(base, s, room, key, value).n;
            ValidPart(p) && PartBytes(p) == s[..n] && (p.Other? ==> n <= room)
  {
    hide ReadVarint, FieldNumber, OrInto, SkipFrom, WellFormed, Unparse;
    var n := DecodeEntryField(base, s, room, key, value).n;
    var tag := ReadVarint(s);
    var rest := s[tag.n..];
    VarintFound(s);
    NumberRead(tag.value);
    if FieldNumber(tag.value) == 1 {
      var c := Delimited(base + tag.n, rest);
      VarintFound(rest);
      p := Key(s[..tag.n], rest[..c.head], Payload(rest, c));
      assert s[..n] == s[..tag.n] + (rest[..c.head] + Payload(rest, c));
    } else if FieldNumber(tag.value) == 2 {
      VarintFound(rest);
      p := Val(s[..tag.n], rest[..ReadVarint(rest).n]);
      assert s[..n] == s[..tag.n] + rest[..ReadVarint(rest).n];
    } else {
      var f := ParseField(s);
      TagInFront(f, s[n..]);
      assert Unparse(f) + s[n..] == s;
      p := Other(f);
    }
  }

  /** What the reader has consumed is one varint. */
  lemma VarintFound(s: Bytes)
    requires ReadVarint(s).err == Nil
    ensures var n := ReadVarint(s).n; IsVarint(s[..n]) && ReadVarint(s[..n]) == ReadVarint(s) && s == s[..n] + s[n..]
  {
    ReadTruncates(s, 0);
  }

  lemma {:induction false} PartsFound(base: nat, s: Bytes, room: int, key: Bytes, value: int32) returns (ps: seq<Part>)
    requires room <= |s| && ReadEntry(base, s, room, key, value).err == Nil
    ensures ValidParts(ps) && Fits(ps, room) && Parts(ps) <= s
    decreases |s|
  {
    hide DecodeEntryField, ValidPart, PartBytes;
    ps := [];
    if room > 0 {
      var st := DecodeEntryField(base, s, room, key, value);
      var p := PartFound(base, s, room, key, value);
      ps := PartsFound(base + st.n, s[st.n..], room - st.n, st.key, st.value);
      assert ([p] + ps)[1..] == ps;
      assert s[..st.n] + Parts(ps) <= s;
      ps := [p] + ps;
    }
  }

  // ---------------------------------------------------------------- main result

  /**
    The loop over an entry accepts exactly the parts that fit into it, and ends with the last key and
    with all values or-ed.
   */
  lemma EntryIsParts(base: nat, s: Bytes, room: int, key: Bytes, value: int32, key': Bytes, value': int32)
    requires room <= |s| && base + |s| < TWO63
    ensures ReadEntry(base, s, room, key, value) == Entry(key', value', Nil)
            <==> exists ps :: ValidParts(ps) && Fits(ps, room) && Parts(ps) <= s
                              && key' == LastKey(key, ps) && value' == OrAll(value, Vals(ps))
  {
    hide ReadEntry, ValidParts, Fits, Parts, LastKey, OrAll, Vals;
    if ReadEntry(base, s, room, key, value) == Entry(key', value', Nil) {
      var ps := PartsFound(base, s, room, key, value);
      var rest := s[|Parts(ps)|..];
      assert Parts(ps) + rest == s;
      PartsRead(base, ps, rest, room, key, value);
    }
    forall ps | ValidParts(ps) && Fits(ps, room) && Parts(ps) <= s
      ensures ReadEntry(base, s, room, key, value) == Entry(LastKey(key, ps), OrAll(value, Vals(ps)), Nil)
    {
      var rest := s[|Parts(ps)|..];
      assert Parts(ps) + rest == s;
      PartsRead(base, ps, rest, room, key, value);
    }
  }
}
