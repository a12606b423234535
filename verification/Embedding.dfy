/**
  Being compact is not necessary once a message that is not compact is embedded: an int32 in a message
  that is embedded at least three deep never makes the whole grow.
 */
module Embedding {
  import opened Bits
  import opened Canonical
  import opened Decoder
  import opened Encoder
  import opened Errors
  import opened Evolution
  import opened Schemas
  import opened Skipper
  import opened Varints

  /** An int32, embedded `e` times. */
  function Chain(e: nat): Schema {
    Schema([Field(1, if e == 0 then KInt32 else KMessage(Chain(e - 1)))])
  }

  lemma {:induction false} ChainIsValid(e: nat)
    ensures ValidSchema(Chain(e))
  {
    if e > 0 {
      ChainIsValid(e - 1);
    }
  }

  // ---------------------------------------------------------------- sizes

  /** The sizes of the smallest and of the largest message. */
  function Least(e: nat): nat {
    if e == 0 then 0 else LenSize(Least(e - 1))
  }

  function Most(e: nat): nat {
    if e == 0 then 11 else LenSize(Most(e - 1))
  }

  /** The only field. */
  lemma ChainShape(e: nat, m: Message)
    requires Typed(Chain(e), m)
    ensures |m| == |Chain(e).fields| == 1 && TypedValue(Chain(e).fields[0].kind, m[0])
    ensures if e == 0 then m[0].VInt32? else m[0].VMessage? && Typed(Chain(e - 1), m[0].m)
  {
  }

  lemma ChainSize(e: nat, m: Message, visit: Visit)
    requires Typed(Chain(e), m) && Fair(visit) && |m| == 1
    requires if e == 0 then m[0].VInt32? else m[0].VMessage? && Typed(Chain(e - 1), m[0].m)
    ensures Size(Chain(e), m, visit)
            == if e > 0 then LenSize(Size(Chain(e - 1), m[0].m, visit))
               else if m[0].i == 0 then 0 else 1 + Sov(Extended(m[0].i))
  {
    hide Sov, LenSize, Typed;
    assert |Chain(e).fields| == 1 && SizeFrom(Chain(e), m, 1, visit) == 0;
    var k := Chain(e).fields[0].kind;
    assert Size(Chain(e), m, visit) == FieldSize(k, m[0], visit);
  }

  lemma {:induction false} SizeRange(e: nat, m: Message, visit: Visit)
    requires Typed(Chain(e), m) && Fair(visit)
    ensures Least(e) <= Size(Chain(e), m, visit) <= Most(e)
  {
    hide Sov, LenSize, Size, Chain, Typed;
    ChainShape(e, m);
    ChainSize(e, m, visit);
    if e == 0 {
      ExtendedLength(m[0].i);
    } else {
      SizeRange(e - 1, m[0].m, visit);
      LenSizeMonotone(Least(e - 1), Size(Chain(e - 1), m[0].m, visit));
      LenSizeMonotone(Size(Chain(e - 1), m[0].m, visit), Most(e - 1));
    }
  }

  lemma SovStep(a: nat, b: nat)
    requires a / 128 <= b
    ensures Sov(a) <= 1 + Sov(b)
  {
    hide Sov;
    SovIsLength(a);
    SovIsLength(a / 128);
    SovMonotone(a / 128, b);
  }

  lemma SmallSov(a: nat)
    requires a < 128
    ensures Sov(a) == 1
  {
    hide Sov;
    SovIsLength(a);
  }

  /** From three levels on, two bytes a level make up for what is written back. */
  lemma {:induction false} SizeGap(e: nat)
    requires e >= 3
    ensures Most(e) <= Least(e) + 6 + 2 * e && Least(e) >= 2 * e
  {
    hide Sov;
    if e == 3 {
      SmallSov(0); SmallSov(2); SmallSov(4); SmallSov(11); SmallSov(13); SmallSov(15);
    } else {
      SizeGap(e - 1);
      SovStep(Most(e - 1), Least(e - 1));
      SovMonotone(0, Least(e - 1));
    }
  }

  // ---------------------------------------------------------------- growth takes bytes

  /** Fewer than five bytes make no int32 negative. */
  lemma Int32Growth(v: Value, wireType: nat, base: nat, s: Bytes, visit: Visit)
    requires v.VInt32? && Fair(visit) && DecodeField(KInt32, v, wireType, base, s).err == Nil
    ensures var st := DecodeField(KInt32, v, wireType, base, s);
            FieldSize(KInt32, st.v, visit) <= FieldSize(KInt32, v, visit) + 1 + st.n || st.n >= 5
  {
    hide Sov, ReadVarint, OrInto, Pow2;
    var r := ReadVarint(s);
    OrIntoZero(r.value);
    Minimal(s);
    if r.n < 5 {
      ReadBound(s, 0);
      Pow2Monotone(7 * r.n, 28);
      Pow28();
      assert Wrap64(r.value) == r.value == ToInt32(r.value);
    }
  }

  lemma Pow28()
    ensures Pow2(28) == 0x1000_0000
  {
    Pow2Seven(21); Pow2Seven(14); Pow2Seven(7); Pow2Seven(0);
  }

  lemma {:induction false} ChainFieldGrowth(e: nat, v: Value, wireType: nat, base: nat, s: Bytes, visit: Visit)
    requires var k := Chain(e).fields[0].kind;
             TypedValue(k, v) && DecodeField(k, v, wireType, base, s).err == Nil
    requires Fair(visit)
    ensures var k := Chain(e).fields[0].kind;
            var st := DecodeField(k, v, wireType, base, s);
            FieldSize(k, st.v, visit) <= FieldSize(k, v, visit) + 1 + st.n || st.n >= 5 + 2 * e
    decreases e, |s|, 0
  {
    hide ReadVarint, Delimited, LenSize, Typed, Decode;
    if e == 0 {
      Int32Growth(v, wireType, base, s, visit);
    } else {
      var sub := Chain(e - 1);
      var c := Delimited(base, s);
      var payload := Payload(s, c);
      ChunkSize(base, s);
      ChainGrowth(e - 1, v.m, 0, payload, visit);
      var before, after := SizeFrom(sub, v.m, 0, visit), SizeFrom(sub, Decode(sub, v.m, 0, payload).m, 0, visit);
      if after <= before + c.len {
        LenSizeSum(before, after, c.len);
      }
    }
  }

  lemma ChainRecordGrowth(e: nat, m: Message, base: nat, d: Bytes, visit: Visit)
    requires Typed(Chain(e), m) && Fair(visit) && d != []
    requires DecodeRecord(Chain(e), m, base, d).err == Nil
    ensures var st := DecodeRecord(Chain(e), m, base, d);
            SizeFrom(Chain(e), st.m, 0, visit) <= SizeFrom(Chain(e), m, 0, visit) + st.n || st.n >= 6 + 2 * e
    decreases e, |d|, 1
  {
    hide ReadVarint, DecodeField, SizeFrom, FieldSize, FieldNumber, Chain;
    var s := Chain(e);
    var tag := ReadVarint(d);
    var i := Find(s, FieldNumber(tag.value));
    if i >= 0 {
      OneField(e);
      var wireType, rest := WireType(tag.value), d[tag.n..];
      var f := DecodeField(s.fields[i].kind, m[i], wireType, base + tag.n, rest);
      ChainFieldGrowth(e, m[0], wireType, base + tag.n, rest, visit);
      SizeOfUpdate(s, m, 0, f.v, 0, visit);
    }
  }

  lemma OneField(e: nat)
    ensures |Chain(e).fields| == 1
  {
  }

  /** An accepted input makes the message grow by its length at most, or is long. */
  lemma {:induction false} ChainGrowth(e: nat, m: Message, base: nat, d: Bytes, visit: Visit)
    requires Typed(Chain(e), m) && Fair(visit) && Decode(Chain(e), m, base, d).err == Nil
    ensures SizeFrom(Chain(e), Decode(Chain(e), m, base, d).m, 0, visit) <= SizeFrom(Chain(e), m, 0, visit) + |d|
            || |d| >= 6 + 2 * e
    decreases e, |d|, 2
  {
    hide DecodeRecord, Typed, SizeFrom, Chain;
    if d != [] {
      var st := DecodeRecord(Chain(e), m, base, d);
      ChainRecordGrowth(e, m, base, d, visit);
      ChainGrowth(e, st.m, base + st.n, d[st.n..], visit);
    }
  }

  // ---------------------------------------------------------------- growing

  /** The negative int32 of five bytes, embedded `e` times. */
  function ChainWitness(e: nat): Bytes {
    if e == 0 then VarintRecord(1, 0xFFFF_FFFF) else LenRecord(1, ChainWitness(e - 1))
  }

  function MinusOne(e: nat): Message {
    [if e == 0 then VInt32(-1) else VMessage(MinusOne(e - 1))]
  }

  lemma {:induction false} ChainWitnessRead(e: nat, visit: Visit)
    requires e <= 2 && Fair(visit)
    ensures |ChainWitness(e)| == 6 + 2 * e
    ensures Unmarshal(Chain(e), Empty(Chain(e)), ChainWitness(e)) == Outcome(MinusOne(e), Nil)
    ensures Size(Chain(e), MinusOne(e), visit) == 11 + 2 * e && Size(Chain(e), Empty(Chain(e)), visit) == 2 * e
  {
    hide Decode, Sov, Varint, Size;
    var s := Chain(e);
    ChainIsValid(e);
    ChainShape(e, Empty(s));
    ChainSize(e, Empty(s), visit);
    ExtendedLength(-1);
    if e == 0 {
      VarintLimit();
      DecodeVarintRecord(s, Empty(s), 0, 0, 0xFFFF_FFFF);
      ChainSize(0, MinusOne(0), visit);
    } else {
      ChainWitnessRead(e - 1, visit);
      var d := ChainWitness(e - 1);
      SovIsLength(|d|);
      SmallSov(|d|); SmallSov(9 + 2 * e); SmallSov(2 * e - 2);
      LengthRead(1, d);
      DecodeLenRecord(s, Empty(s), 0, 0, d);
      assert Empty(s)[0] == VMessage(Empty(Chain(e - 1)));
      ChainSize(e, MinusOne(e), visit);
    }
  }

  // ---------------------------------------------------------------- main result

  /** An int32 that is embedded `e` times never makes the message grow exactly from three times on. */
  lemma NeverGrowsFromThreeDeep(e: nat, visit: Visit)
    requires Fair(visit)
    ensures NeverGrows(Chain(e), visit) <==> e >= 3
    ensures !Compact(Chain(e))
  {
    hide Decode, SizeFrom, Typed, Chain;
    ChainNotCompact(e);
    if e < 3 {
      ChainWitnessRead(e, visit);
    } else {
      SizeGap(e);
      forall m, d | Typed(Chain(e), m) && Unmarshal(Chain(e), m, d).err == Nil
        ensures Size(Chain(e), Unmarshal(Chain(e), m, d).m, visit) <= Size(Chain(e), m, visit) + |d|
      {
        ChainGrowth(e, m, 0, d, visit);
        SizeRange(e, m, visit);
        SizeRange(e, Unmarshal(Chain(e), m, d).m, visit);
      }
    }
  }

  lemma {:induction false} ChainNotCompact(e: nat)
    ensures !Compact(Chain(e))
  {
    assert !CompactKind(Chain(e).fields[0].kind) by {
      if e > 0 {
        ChainNotCompact(e - 1);
      }
    }
  }
}
