/** `GrowthGraphResponse`: a map and an int32. */
module GrowthGraphResponseMessage {
  import opened Bits
  import opened Buffer
  import opened CompanySchemas
  import opened Errors
  import opened Fields
  import opened Schemas
  import opened Structs
  import opened Varints
  import Decoder
  import Encoder

  class GrowthGraphResponse {
    var peopleScheduledPerWeek: map<Bytes, int32>
    var peopleOnShifts: int32

    /** The struct as a value. */
    ghost function Struct(): GrowthGraphStruct
      reads this
    {
      GrowthGraphStruct(peopleScheduledPerWeek, peopleOnShifts)
    }

    /** Its fields, in the order of their numbers. */
    ghost function Contents(): (m: Message)
      reads this
      ensures ValidSchema(GROWTH_GRAPH_RESPONSE) && Typed(GROWTH_GRAPH_RESPONSE, m)
    {
      GrowthGraphResponseIsValid();
      OfGrowthGraph(Struct())
    }

    constructor ()
      ensures Contents() == Empty(GROWTH_GRAPH_RESPONSE)
    {
      peopleScheduledPerWeek := map[];
      peopleOnShifts := 0;
    }

    /** One round of the loop of `Unmarshal`. */
    method UnmarshalField(dAtA: Bytes, preIndex: nat) returns (iNdEx: nat, err: Error)
      requires preIndex < |dAtA| < TWO63
      modifies this
      ensures Round(GROWTH_GRAPH_RESPONSE, old(Contents()), dAtA, preIndex, Contents(), iNdEx, err)
    {
      hide Decoder.DecodeField, Decoder.SkipUnknown, Decoder.FieldNumber;
      hide ReadVarint, Typed, ValidSchema, Round, Did, TagError;
      ghost var m := Contents();
      var fieldNum, wireType;
      fieldNum, wireType, iNdEx, err := ReadTag(dAtA, preIndex);
      if err != Nil {
        RoundRefused(GROWTH_GRAPH_RESPONSE, m, dAtA, preIndex, iNdEx);
        return;
      }
      match fieldNum {
        case 1 =>
          iNdEx, err := UnmarshalPeople(dAtA, iNdEx, wireType);
          RoundKnown(GROWTH_GRAPH_RESPONSE, m, dAtA, preIndex, 0, VMap(peopleScheduledPerWeek), Contents(),
                     iNdEx, err);
        case 2 =>
          peopleOnShifts, iNdEx, err := ReadInt32Field(dAtA, iNdEx, wireType, peopleOnShifts);
          RoundKnown(GROWTH_GRAPH_RESPONSE, m, dAtA, preIndex, 1, VInt32(peopleOnShifts), Contents(), iNdEx, err);
        case _ =>
          iNdEx, err := SkipUnknownField(dAtA, preIndex, |dAtA|);
          RoundUnknown(GROWTH_GRAPH_RESPONSE, m, dAtA, preIndex, iNdEx, err);
      }
    }

    /** `case 1`: one map entry; wherever its loop has stopped, reading goes on behind the entry. */
    method UnmarshalPeople(dAtA: Bytes, start: nat, wireType: nat) returns (iNdEx: nat, err: Error)
      requires start <= |dAtA| < TWO63
      modifies this`peopleScheduledPerWeek
      ensures Did(Decoder.DecodeField(KMap, VMap(old(peopleScheduledPerWeek)), wireType, start, dAtA[start..]),
                  VMap(peopleScheduledPerWeek), start, iNdEx, err)
    {
      hide Decoder.Delimited, Decoder.ReadEntry, Decoder.DecodeField, Did;
      ghost var v, c := VMap(peopleScheduledPerWeek), Decoder.Delimited(start, dAtA[start..]);
      var postIndex;
      iNdEx, postIndex, err := ReadMessageHead(dAtA, start, wireType);
      if err != Nil {
        NestedRefused(KMap, v, wireType, dAtA, start, iNdEx, err);
        return;
      }
      NestedRead(KMap, v, dAtA, start, c);
      assert dAtA[start..][c.head..] == dAtA[iNdEx..];
      var mapkey, mapvalue;
      mapkey, mapvalue, err := UnmarshalEntry(dAtA, iNdEx, postIndex);
      iNdEx := postIndex;
      if err != Nil {
        return;
      }
      peopleScheduledPerWeek := peopleScheduledPerWeek[mapkey := mapvalue];
    }

    method Unmarshal(dAtA: Bytes) returns (err: Error)
      requires |dAtA| < TWO63
      modifies this
      ensures Decoder.Unmarshal(GROWTH_GRAPH_RESPONSE, old(Contents()), dAtA) == Decoder.Outcome(Contents(), err)
      ensures GrowthGraphReads(old(Struct()), dAtA, Struct(), err)
    {
      hide Decoder.Decode, Round, Typed, ValidSchema, OfGrowthGraph, GrowthGraphReads;
      LoopEnds(GROWTH_GRAPH_RESPONSE, Contents(), dAtA);
      var l, iNdEx := |dAtA|, 0;
      err := Nil;
      while iNdEx < l
        invariant 0 <= iNdEx <= l && err == Nil
        invariant Decoder.Decode(GROWTH_GRAPH_RESPONSE, Contents(), iNdEx, dAtA[iNdEx..])
                  == Decoder.Decode(GROWTH_GRAPH_RESPONSE, old(Contents()), 0, dAtA)
      {
        ghost var m, preIndex := Contents(), iNdEx;
        iNdEx, err := UnmarshalField(dAtA, iNdEx);
        RoundDone(GROWTH_GRAPH_RESPONSE, m, dAtA, preIndex, Contents(), iNdEx, err);
        if err != Nil {
          GrowthGraphIsRead(old(Struct()), dAtA, Struct(), err);
          return;
        }
      }
      LoopEnds(GROWTH_GRAPH_RESPONSE, Contents(), dAtA);
      GrowthGraphIsRead(old(Struct()), dAtA, Struct(), err);
    }

    /** The sizes of the entries, in whatever order the map is visited. */
    method CountPeople() returns (n: int64, ghost keys: seq<Bytes>)
      ensures Encoder.IsOrder(keys, peopleScheduledPerWeek)
      ensures var size := Encoder.EntriesSize(peopleScheduledPerWeek, keys); size < TWO63 ==> n == size
    {
      hide Sov, Encoder.EntrySize;
      n, keys := 0, [];
      var todo := peopleScheduledPerWeek.Keys;
      while todo != {}
        invariant Visited(peopleScheduledPerWeek, keys, todo)
        invariant var size := Encoder.EntriesSize(peopleScheduledPerWeek, keys); size < TWO63 ==> n == size
        decreases |todo|
      {
        var k :| k in todo;
        var v := peopleScheduledPerWeek[k];
        var mapEntrySize := EntryInt(k, v);
        n := AddLenSize(n, mapEntrySize);
        assert (keys + [k])[..|keys|] == keys;
        todo, keys := todo - {k}, keys + [k];
      }
    }

    method Size(ghost visit: Encoder.Visit) returns (n: int64)
      requires Encoder.Fair(visit)
      ensures var size := Encoder.Size(GROWTH_GRAPH_RESPONSE, Contents(), visit); size < TWO63 ==> n == size
    {
      hide Counted, Typed, Encoder.EntriesSize, Encoder.SizeFrom;
      ghost var m := Contents();
      CountedNothing(GROWTH_GRAPH_RESPONSE, m, visit);
      CountedRoom(GROWTH_GRAPH_RESPONSE, m, visit, 0, 0);
      ghost var keys;
      n, keys := CountPeople();
      assert Encoder.IsOrder(visit(peopleScheduledPerWeek), peopleScheduledPerWeek);
      Encoder.EntriesSizeOrder(peopleScheduledPerWeek, keys, visit(peopleScheduledPerWeek));
      CountedField(GROWTH_GRAPH_RESPONSE, m, visit, 0, n, 0);
      n := CountInt32(n, peopleOnShifts, GROWTH_GRAPH_RESPONSE, m, visit, 1);
      CountedAll(GROWTH_GRAPH_RESPONSE, m, visit, n);
    }

    /** The entries, from the end backwards, in whatever order the map is visited. */
    method PutPeople(dAtA: array<byte>, end: int, ghost all: seq<Bytes>) returns (i: int, ghost keys: seq<Bytes>)
      requires Encoder.IsOrder(all, peopleScheduledPerWeek)
      requires Encoder.EntriesSize(peopleScheduledPerWeek, all) <= end <= dAtA.Length < TWO63
      modifies dAtA
      ensures Encoder.IsOrder(keys, peopleScheduledPerWeek)
      ensures Filled(old(dAtA[..]), dAtA[..], i, end, Encoder.EncodeEntries(1, peopleScheduledPerWeek, keys))
    {
      hide Filled, Encoder.LenRecord, Encoder.EntryBody, Encoder.EntriesSize;
      i, keys := end, [];
      FilledNothing(dAtA[..], end);
      var todo := peopleScheduledPerWeek.Keys;
      while todo != {}
        invariant Visited(peopleScheduledPerWeek, keys, todo)
        invariant Filled(old(dAtA[..]), dAtA[..], i, end, Encoder.EncodeEntries(1, peopleScheduledPerWeek, keys))
        decreases |todo|
      {
        var k :| k in todo;
        ghost var back, hi, s1 := Encoder.EncodeEntries(1, peopleScheduledPerWeek, keys), i, dAtA[..];
        ghost var keys' := keys + [k];
        assert keys'[..|keys|] == keys;
        ghost var front := Encoder.LenRecord(1, Encoder.EntryBody(k, peopleScheduledPerWeek[k]));
        assert Encoder.EncodeEntries(1, peopleScheduledPerWeek, keys') == front + back;
        Encoder.EntriesLength(1, peopleScheduledPerWeek, keys');
        Encoder.EntriesSizeSubset(peopleScheduledPerWeek, keys', all);
        FilledLength(old(dAtA[..]), s1, i, end, back);
        i := PutEntry(dAtA, i, k, peopleScheduledPerWeek[k]);
        FilledTwice(old(dAtA[..]), s1, dAtA[..], i, hi, end, front, back);
        todo, keys := todo - {k}, keys';
      }
    }

    /** Writes into `dAtA[:end]`, from its end backwards; the order of the map is found on the way. */
    method MarshalToSizedBuffer(dAtA: array<byte>, end: nat, ghost others: Encoder.Visit)
      returns (n: nat, ghost visit: Encoder.Visit)
      requires Encoder.Fair(others)
      requires Encoder.Size(GROWTH_GRAPH_RESPONSE, Contents(), others) <= end <= dAtA.Length < TWO63
      modifies dAtA
      ensures Encoder.Fair(visit) && n == Encoder.Size(GROWTH_GRAPH_RESPONSE, Contents(), visit)
      ensures Filled(old(dAtA[..]), dAtA[..], end - n, end, Encoder.Marshal(GROWTH_GRAPH_RESPONSE, Contents(), visit))
      ensures Encoder.IsOrder(visit(peopleScheduledPerWeek), peopleScheduledPerWeek)
      ensures Filled(old(dAtA[..]), dAtA[..], end - n, end,
                     GrowthGraphBytes(Struct(), visit(peopleScheduledPerWeek)))
    {
      hide Placed, Typed, ValidSchema, Filled, Encoder.EncodeFrom, Encoder.SizeFrom, Encoder.EncodeEntries;
      hide Encoder.EntriesSize, GrowthGraphBytes;
      ghost var m := Contents();
      Encoder.SizeIsLength(GROWTH_GRAPH_RESPONSE, m, others);
      ghost var w := Job(GROWTH_GRAPH_RESPONSE, m, others, dAtA[..], end);
      PlacedNothing(w);
      var i := end;
      i := PutInt32(dAtA, i, 0x10, peopleOnShifts, w, 1);
      ghost var s1, hi, keys := dAtA[..], i, [];
      PeopleRoom(m, others, w, s1, i);
      i, keys := PutPeople(dAtA, i, others(peopleScheduledPerWeek));
      visit := Encoder.Visiting(peopleScheduledPerWeek, keys, others);
      PeoplePlaced(m, others, visit);
      FilledTwice(w.before, s1, dAtA[..], i, hi, end, Encoder.EncodeEntries(1, peopleScheduledPerWeek, keys),
                  Encoder.EncodeFrom(GROWTH_GRAPH_RESPONSE, m, 1, others));
      FilledLength(w.before, dAtA[..], i, end, Encoder.Marshal(GROWTH_GRAPH_RESPONSE, m, visit));
      Encoder.SizeIsLength(GROWTH_GRAPH_RESPONSE, m, visit);
      n := end - i;
      GrowthGraphIsWritten(Struct(), visit);
    }

    method Marshal(ghost others: Encoder.Visit) returns (dAtA: array<byte>, ghost visit: Encoder.Visit)
      requires Encoder.Fair(others) && Encoder.Size(GROWTH_GRAPH_RESPONSE, Contents(), others) < TWO63
      ensures Encoder.Fair(visit)
      ensures fresh(dAtA) && dAtA[..] == Encoder.Marshal(GROWTH_GRAPH_RESPONSE, Contents(), visit)
      ensures Encoder.IsOrder(visit(peopleScheduledPerWeek), peopleScheduledPerWeek)
      ensures dAtA[..] == GrowthGraphBytes(Struct(), visit(peopleScheduledPerWeek))
    {
      hide Typed, ValidSchema, Encoder.EncodeFrom, Encoder.SizeFrom, GrowthGraphBytes;
      var size := Size(others);
      dAtA := new byte[size];
      ghost var before, n := dAtA[..], 0;
      n, visit := MarshalToSizedBuffer(dAtA, size, others);
      Encoder.SizeIsLength(GROWTH_GRAPH_RESPONSE, Contents(), visit);
      Encoder.SizeIgnoresOrder(GROWTH_GRAPH_RESPONSE, Contents(), others, visit);
      WholeBuffer(before, dAtA[..], size - n, Encoder.Marshal(GROWTH_GRAPH_RESPONSE, Contents(), visit));
      GrowthGraphIsWritten(Struct(), visit);
    }
  }

  /** The size of an entry; the additions wrap around. */
  function EntryInt(k: Bytes, v: int32): (n: int64)
    ensures Encoder.EntrySize(k, v) < TWO63 ==> n == Encoder.EntrySize(k, v)
  {
    var keySize := Add64(Add64(1, LenInt(k)), SovInt(ToUint64(LenInt(k))));
    Add64(Add64(keySize, 1), SovInt(Extended(v)))
  }

  /** `keys` have been visited, each once; `todo` are the keys that are left. */
  ghost predicate Visited(entries: map<Bytes, int32>, keys: seq<Bytes>, todo: set<Bytes>) {
    && |keys| + |todo| == |entries|
    && Encoder.Distinct(keys)
    && (forall k :: k in entries <==> k in keys || k in todo)
    && (forall k :: k in keys ==> k !in todo)
  }

  /** One entry: the value, the key, and the length and tag in front of both. */
  method PutEntry(dAtA: array<byte>, end: int, k: Bytes, v: int32) returns (i: int)
    requires |Encoder.LenRecord(1, Encoder.EntryBody(k, v))| <= end <= dAtA.Length < TWO63
    modifies dAtA
    ensures Filled(old(dAtA[..]), dAtA[..], i, end, Encoder.LenRecord(1, Encoder.EntryBody(k, v)))
  {
    hide Filled, Encoder.VarintRecord;
    ghost var s0, back := dAtA[..], Encoder.VarintRecord(2, Extended(v));
    var baseI := end;
    i := PutVarintRecord(dAtA, end, 0x10, Extended(v), 2);
    ghost var s1, hi := dAtA[..], i;
    FilledLength(s0, s1, i, end, back);
    i := PutLenRecord(dAtA, i, 0x0a, k, 1);
    FilledTwice(s0, s1, dAtA[..], i, hi, end, Encoder.LenRecord(1, k), back);
    FilledLength(s0, dAtA[..], i, end, Encoder.EntryBody(k, v));
    i := PutHead(dAtA, baseI, baseI - i, 0x0a, 1, Encoder.EntryBody(k, v), s0);
  }

  /** There is room for the entries in front of the int32. */
  lemma PeopleRoom(m: Message, visit: Encoder.Visit, w: Job, now: Bytes, i: int)
    requires Typed(GROWTH_GRAPH_RESPONSE, m) && w.sc == GROWTH_GRAPH_RESPONSE && w.m == m && w.visit == visit
    requires Placed(w, now, i, 1)
    ensures Filled(w.before, now, i, w.end, Encoder.EncodeFrom(GROWTH_GRAPH_RESPONSE, m, 1, visit))
    ensures Encoder.IsOrder(visit(m[0].entries), m[0].entries)
    ensures Encoder.EntriesSize(m[0].entries, visit(m[0].entries)) <= i <= |now|
  {
    Room(w, now, i, 0);
    assert Encoder.IsOrder(visit(m[0].entries), m[0].entries);
    Encoder.EntriesLength(1, m[0].entries, visit(m[0].entries));
  }

  /** The bytes of the message, when the entries come in the order that was found. */
  lemma PeoplePlaced(m: Message, others: Encoder.Visit, visit: Encoder.Visit)
    requires ValidSchema(GROWTH_GRAPH_RESPONSE) && Typed(GROWTH_GRAPH_RESPONSE, m)
    requires Encoder.Fair(others) && Encoder.Fair(visit)
    ensures Encoder.IsOrder(visit(m[0].entries), m[0].entries)
    ensures Encoder.Marshal(GROWTH_GRAPH_RESPONSE, m, visit)
            == Encoder.EncodeEntries(1, m[0].entries, visit(m[0].entries))
               + Encoder.EncodeFrom(GROWTH_GRAPH_RESPONSE, m, 1, others)
  {
    hide Encoder.EncodeEntries, Encoder.VarintRecord;
    assert Encoder.IsOrder(visit(m[0].entries), m[0].entries);
    var sc := GROWTH_GRAPH_RESPONSE;
    assert Encoder.EncodeFrom(sc, m, 2, visit) == Encoder.EncodeFrom(sc, m, 2, others);
    assert Encoder.EncodeFrom(sc, m, 1, visit) == Encoder.EncodeFrom(sc, m, 1, others);
  }
}
