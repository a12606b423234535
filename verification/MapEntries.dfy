/**
  Map entries in messages: the last key counts, but the values are or-ed.
 */
module MapEntries {
  import opened Bits
  import opened CompanySchemas
  import opened Decoder
  import opened Entries
  import opened Errors
  import opened Merge
  import opened Records
  import opened Schemas
  import opened Skipper
  import opened Tags
  import opened Varints

  // ---------------------------------------------------------------- the last value

  /** `x` has every bit of `p`. */
  predicate Contains(x: nat, p: nat) {
    Or(p, x) == x
  }

  lemma {:induction false} ContainsOr(x: nat, p: nat, q: nat)
    ensures Contains(x, Or(p, q)) <==> Contains(x, p) && Contains(x, q)
    decreases x + p + q
  {
    if x > 0 || p > 0 || q > 0 {
      ContainsOr(x / 2, p / 2, q / 2);
      OrHalves(p, q);
      ContainsHalves(x, p);
      ContainsHalves(x, q);
      ContainsHalves(x, Or(p, q));
    }
  }

  lemma ContainsHalves(x: nat, p: nat)
    ensures Contains(x, p) <==> Contains(x / 2, p / 2) && (p % 2 == 1 ==> x % 2 == 1)
  {
    OrHalves(p, x);
  }

  /** The low 32 bits of every value are among those of `last`. */
  predicate AllWithin(vs: seq<nat>, last: nat) {
    forall i :: 0 <= i < |vs| ==> Contains(Wrap32(last), Wrap32(vs[i]))
  }

  lemma OrIntoIs(acc: int32, x: nat)
    ensures Pattern32(OrInto(acc, x)) == Or(Pattern32(acc), Wrap32(x))
    ensures OrInto(acc, x) == ToInt32(x) <==> Contains(Wrap32(x), Pattern32(acc))
  {
    hide Or;
    Or32(Pattern32(acc), Wrap32(x));
    assert Pattern32(ToInt32(x)) == Wrap32(x);
  }

  lemma {:induction false} OrAllIsLast(acc: int32, vs: seq<nat>, last: nat)
    ensures OrAll(acc, vs + [last]) == ToInt32(last)
            <==> Contains(Wrap32(last), Pattern32(acc)) && AllWithin(vs, last)
    decreases |vs|
  {
    hide Or, OrInto, Contains;
    if vs == [] {
      assert vs + [last] == [last] && [last][1..] == [];
      OrIntoIs(acc, last);
    } else {
      assert (vs + [last])[1..] == vs[1..] + [last];
      OrAllIsLast(OrInto(acc, vs[0]), vs[1..], last);
      OrIntoIs(acc, vs[0]);
      ContainsOr(Wrap32(last), Pattern32(acc), Wrap32(vs[0]));
      AllWithinRest(vs, last);
    }
  }

  lemma AllWithinRest(vs: seq<nat>, last: nat)
    requires vs != []
    ensures AllWithin(vs, last) <==> Contains(Wrap32(last), Wrap32(vs[0])) && AllWithin(vs[1..], last)
  {
    hide Contains;
    if AllWithin(vs[1..], last) && Contains(Wrap32(last), Wrap32(vs[0])) {
      forall i | 0 <= i < |vs|
        ensures Contains(Wrap32(last), Wrap32(vs[i]))
      {
        assert i == 0 || vs[i] == vs[1..][i - 1];
      }
    }
  }

  // ---------------------------------------------------------------- main results

  /**
    The record of an entry, in any schema with a map: the parts that fit into the announced length
    assign to the last key all values or-ed; the loop goes on behind that length, even if the last part
    reaches further.
   */
  lemma EntryRecordRead(
    sc: Schema, m: Message, base: nat, j: nat, tag: Bytes, len: Bytes, room: nat, ps: seq<Part>, rest: Bytes)
    requires ValidSchema(sc) && Typed(sc, m) && j < |sc.fields| && sc.fields[j].kind.KMap?
    requires IsTagOf(tag, sc.fields[j].num, 2) && IsLength(len, room) && ValidParts(ps) && Fits(ps, room)
    requires room <= |Parts(ps) + rest|
    requires base + |tag| + |len| + room < TWO63 && base + |tag| + |len| + |Parts(ps)| < TWO63
    ensures m[j].VMap?
    ensures DecodeRecord(sc, m, base, tag + (len + (Parts(ps) + rest)))
            == Step(m[j := VMap(m[j].entries[LastKey([], ps) := OrAll(0, Vals(ps))])], |tag| + |len| + room, Nil)
  {
    assert 1 <= sc.fields[j].num <= 15;
    FindAt(sc, j);
    hide ReadVarint, DecodeRecord, ValidSchema, Parts, Fits, LastKey, OrAll, Vals, IsTagOf, Find;
    EntryRead(sc, m, base, j, tag, len, room, ps, rest);
  }

  /**
    Of all values in an entry, with keys and unknown fields between them, the last one is what arrives
    exactly when its low 32 bits include those of every value before it.
   */
  lemma LastValueWinsIff(sc: Schema, m: Message, j: nat, d: Bytes, ps: seq<Part>)
    requires ValidSchema(sc) && Typed(sc, m) && j < |sc.fields| && sc.fields[j].kind.KMap? && |d| < TWO63
    requires IsChunk(d, sc.fields[j].num * 8 + 2, Parts(ps)) && ValidParts(ps) && Vals(ps) != []
    ensures var o := Unmarshal(sc, m, d);
            var vs, key := Vals(ps), LastKey([], ps);
            var last := vs[|vs| - 1];
            && o.err == Nil && o.m[j].VMap? && key in o.m[j].entries
            && (o.m[j].entries[key] == ToInt32(last) <==> AllWithin(vs[..|vs| - 1], last))
  {
    hide Decode, Parts, OrAll, Vals, LastKey, AllWithin, Or, ValidParts, IsChunk;
    EntryAlone(sc, m, j, d, ps);
    var vs := Vals(ps);
    var n := |vs| - 1;
    assert vs[..n] + [vs[n]] == vs;
    OrAllIsLast(0, vs[..n], vs[n]);
    OrZero(Wrap32(vs[n]));
  }

  lemma OneOrTwo()
    ensures OrInto(OrInto(0, 1), 2) == 3
  {
    hide Or;
    OrIntoZero(1);
    OrHalves(1, 2);
    OrZero(1);
    assert Pattern32(ToInt32(1)) == 1 && Wrap32(2) == 2;
  }

  /** Any key, the values 1 and then 2, and an unknown field 3 in between. */
  function OneThenTwo(len: Bytes, key: Bytes): seq<Part> {
    [Key([0x0a], len, key), Val([0x10], [0x01]), Other(Scalar([0x18], [0x01])), Val([0x10], [0x02])]
  }

  /** For instance, such an entry of PeopleScheduledPerWeek arrives as 3, whatever its key is. */
  lemma LastValueLost(len: Bytes, key: Bytes, d: Bytes)
    requires IsLength(len, |key|) && IsChunk(d, 0x0a, Parts(OneThenTwo(len, key))) && |d| < TWO63
    ensures var sc := GROWTH_GRAPH_RESPONSE;
            Unmarshal(sc, Empty(sc), d) == Outcome([VMap(map[key := 3]), VInt32(0)], Nil)
  {
    var sc, ps := GROWTH_GRAPH_RESPONSE, OneThenTwo(len, key);
    GrowthGraphResponseIsValid();
    OneThenTwoParts(len, key);
    EmptyGraph();
    OneOrTwo();
    var none: map<Bytes, int32> := map[];
    assert none[key := 3] == map[key := 3];
    hide Decode, Parts, OrInto, ReadVarint, Unmarshal, ValidParts, ValidSchema, Typed, Empty, OrAll, Vals, LastKey;
    hide IsChunk, OneThenTwo;
    EntryAlone(sc, Empty(sc), 0, d, ps);
  }

  lemma EmptyGraph()
    ensures Empty(GROWTH_GRAPH_RESPONSE) == [VMap(map[]), VInt32(0)]
  {
    var m := Empty(GROWTH_GRAPH_RESPONSE);
    assert m[0] == EmptyValue(KMap) && m[1] == EmptyValue(KInt32);
  }

  lemma OneThenTwoParts(len: Bytes, key: Bytes)
    requires IsLength(len, |key|)
    ensures var ps := OneThenTwo(len, key);
            ValidParts(ps) && LastKey([], ps) == key && OrAll(0, Vals(ps)) == OrInto(OrInto(0, 1), 2)
  {
    hide ReadVarint, OrInto;
    ByteSpells(0x0a); ByteSpells(0x10); ByteSpells(0x18); ByteSpells(0x01); ByteSpells(0x02);
    var ps := OneThenTwo(len, key);
    var p1, p2, p3 := ps[1..], ps[1..][1..], ps[1..][1..][1..];
    assert p1 == [ps[1], ps[2], ps[3]] && p2 == [ps[2], ps[3]] && p3 == [ps[3]] && p3[1..] == [];
    var one: Bytes, two: Bytes := [0x01], [0x02];
    assert ReadVarint(one).value == 1 && ReadVarint(two).value == 2;
    assert Vals(p3) == [2] + [] && Vals(p2) == [] + Vals(p3) && Vals(p1) == [1] + Vals(p2) && Vals(ps) == [] + Vals(p1);
    assert LastKey(key, p1) == LastKey(key, p2) == LastKey(key, p3) == LastKey(key, []) == key;
    assert LastKey([], ps) == LastKey(key, p1);
    var vs: seq<nat> := [1, 2];
    assert Vals(ps) == vs && vs[1..] == [2] && vs[1..][1..] == [];
    assert OrAll(0, vs) == OrAll(OrInto(0, 1), [2]) == OrAll(OrInto(OrInto(0, 1), 2), []);
    assert ValidPart(ps[0]) && ValidPart(ps[1]) && ValidPart(ps[2]) && ValidPart(ps[3]);
  }
}
