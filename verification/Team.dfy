/** `Team`: strings, a bool and an int32. */
module TeamMessage {
  import opened Bits
  import opened Buffer
  import opened CompanySchemas
  import opened Errors
  import opened Fields
  import opened Schemas
  import opened Structs
  import opened Varints
  import Decoder
  import Encoder

  class Team {
    var uuid: Bytes
    var companyUuid: Bytes
    var name: Bytes
    var archived: bool
    var timezone: Bytes
    var dayWeekStarts: Bytes
    var color: Bytes
    var version: int32

    /** The struct as a value. */
    ghost function Struct(): TeamStruct
      reads this
    {
      TeamStruct(uuid, companyUuid, name, archived, timezone, dayWeekStarts, color, version)
    }

    /** Its fields, in the order of their numbers. */
    ghost function Contents(): (m: Message)
      reads this
      ensures ValidSchema(TEAM) && Typed(TEAM, m)
    {
      TeamIsValid();
      OfTeam(Struct())
    }

    constructor ()
      ensures Contents() == Empty(TEAM)
    {
      uuid := [];
      companyUuid := [];
      name := [];
      archived := false;
      timezone := [];
      dayWeekStarts := [];
      color := [];
      version := 0;
    }

    /** One round of the loop of `Unmarshal`. */
    method UnmarshalField(dAtA: Bytes, preIndex: nat) returns (iNdEx: nat, err: Error)
      requires preIndex < |dAtA| < TWO63
      modifies this
      ensures Round(TEAM, old(Contents()), dAtA, preIndex, Contents(), iNdEx, err)
    {
      hide Decoder.DecodeField, Decoder.SkipUnknown, Decoder.FieldNumber;
      hide ReadVarint, Typed, ValidSchema, Round, Did, TagError;
      ghost var m := Contents();
      var fieldNum, wireType;
      fieldNum, wireType, iNdEx, err := ReadTag(dAtA, preIndex);
      if err != Nil {
        RoundRefused(TEAM, m, dAtA, preIndex, iNdEx);
        return;
      }
      match fieldNum {
        case 1 =>
          uuid, iNdEx, err := ReadString(dAtA, iNdEx, wireType, uuid);
          RoundKnown(TEAM, m, dAtA, preIndex, 0, VString(uuid), Contents(), iNdEx, err);
        case 2 =>
          companyUuid, iNdEx, err := ReadString(dAtA, iNdEx, wireType, companyUuid);
          RoundKnown(TEAM, m, dAtA, preIndex, 1, VString(companyUuid), Contents(), iNdEx, err);
        case 3 =>
          name, iNdEx, err := ReadString(dAtA, iNdEx, wireType, name);
          RoundKnown(TEAM, m, dAtA, preIndex, 2, VString(name), Contents(), iNdEx, err);
        case 4 =>
          archived, iNdEx, err := ReadBool(dAtA, iNdEx, wireType, archived);
          RoundKnown(TEAM, m, dAtA, preIndex, 3, VBool(archived), Contents(), iNdEx, err);
        case 5 =>
          timezone, iNdEx, err := ReadString(dAtA, iNdEx, wireType, timezone);
          RoundKnown(TEAM, m, dAtA, preIndex, 4, VString(timezone), Contents(), iNdEx, err);
        case 6 =>
          dayWeekStarts, iNdEx, err := ReadString(dAtA, iNdEx, wireType, dayWeekStarts);
          RoundKnown(TEAM, m, dAtA, preIndex, 5, VString(dayWeekStarts), Contents(), iNdEx, err);
        case 7 =>
          color, iNdEx, err := ReadString(dAtA, iNdEx, wireType, color);
          RoundKnown(TEAM, m, dAtA, preIndex, 6, VString(color), Contents(), iNdEx, err);
        case 8 =>
          version, iNdEx, err := ReadInt32Field(dAtA, iNdEx, wireType, version);
          RoundKnown(TEAM, m, dAtA, preIndex, 7, VInt32(version), Contents(), iNdEx, err);
        case _ =>
          iNdEx, err := SkipUnknownField(dAtA, preIndex, |dAtA|);
          RoundUnknown(TEAM, m, dAtA, preIndex, iNdEx, err);
      }
    }

    method Unmarshal(dAtA: Bytes) returns (err: Error)
      requires |dAtA| < TWO63
      modifies this
      ensures Decoder.Unmarshal(TEAM, old(Contents()), dAtA) == Decoder.Outcome(Contents(), err)
      ensures TeamReads(old(Struct()), dAtA, Struct(), err)
    {
      hide Decoder.Decode, Round, Typed, ValidSchema, OfTeam, TeamReads;
      LoopEnds(TEAM, Contents(), dAtA);
      var l, iNdEx := |dAtA|, 0;
      err := Nil;
      while iNdEx < l
        invariant 0 <= iNdEx <= l && err == Nil
        invariant Decoder.Decode(TEAM, Contents(), iNdEx, dAtA[iNdEx..])
                  == Decoder.Decode(TEAM, old(Contents()), 0, dAtA)
      {
        ghost var m, preIndex := Contents(), iNdEx;
        iNdEx, err := UnmarshalField(dAtA, iNdEx);
        RoundDone(TEAM, m, dAtA, preIndex, Contents(), iNdEx, err);
        if err != Nil {
          TeamIsRead(old(Struct()), dAtA, Struct(), err);
          return;
        }
      }
      LoopEnds(TEAM, Contents(), dAtA);
      TeamIsRead(old(Struct()), dAtA, Struct(), err);
    }

    method Size(ghost visit: Encoder.Visit) returns (n: int64)
      requires Encoder.Fair(visit)
      ensures var size := Encoder.Size(TEAM, Contents(), visit); size < TWO63 ==> n == size
    {
      hide Counted, Typed;
      ghost var m := Contents();
      CountedNothing(TEAM, m, visit);
      n := 0;
      n := CountString(n, uuid, TEAM, m, visit, 0);
      n := CountString(n, companyUuid, TEAM, m, visit, 1);
      n := CountString(n, name, TEAM, m, visit, 2);
      n := CountBool(n, archived, TEAM, m, visit, 3);
      n := CountString(n, timezone, TEAM, m, visit, 4);
      n := CountString(n, dayWeekStarts, TEAM, m, visit, 5);
      n := CountString(n, color, TEAM, m, visit, 6);
      n := CountInt32(n, version, TEAM, m, visit, 7);
      CountedAll(TEAM, m, visit, n);
    }

    /** Writes into `dAtA[:end]`, from its end backwards. */
    method MarshalToSizedBuffer(dAtA: array<byte>, end: nat, ghost visit: Encoder.Visit) returns (n: nat)
      requires Encoder.Fair(visit)
      requires Encoder.Size(TEAM, Contents(), visit) <= end <= dAtA.Length < TWO63
      modifies dAtA
      ensures n == Encoder.Size(TEAM, Contents(), visit)
      ensures Filled(old(dAtA[..]), dAtA[..], end - n, end, Encoder.Marshal(TEAM, Contents(), visit))
      ensures Filled(old(dAtA[..]), dAtA[..], end - n, end, TeamBytes(Struct()))
    {
      hide Placed, Typed, ValidSchema, TeamBytes, Encoder.EncodeFrom, Encoder.SizeFrom;
      Encoder.SizeIsLength(TEAM, Contents(), visit);
      ghost var w := Job(TEAM, Contents(), visit, dAtA[..], end);
      PlacedNothing(w);
      var i := end;
      i := PutInt32(dAtA, i, 0x40, version, w, 7);
      i := PutString(dAtA, i, 0x3a, color, w, 6);
      i := PutString(dAtA, i, 0x32, dayWeekStarts, w, 5);
      i := PutString(dAtA, i, 0x2a, timezone, w, 4);
      i := PutBool(dAtA, i, 0x20, archived, w, 3);
      i := PutString(dAtA, i, 0x1a, name, w, 2);
      i := PutString(dAtA, i, 0x12, companyUuid, w, 1);
      i := PutString(dAtA, i, 0x0a, uuid, w, 0);
      PlacedAll(w, dAtA[..], i);
      n := end - i;
      TeamIsWritten(Struct(), visit);
    }

    method Marshal(ghost visit: Encoder.Visit) returns (dAtA: array<byte>)
      requires Encoder.Fair(visit) && Encoder.Size(TEAM, Contents(), visit) < TWO63
      ensures fresh(dAtA) && dAtA[..] == Encoder.Marshal(TEAM, Contents(), visit)
      ensures dAtA[..] == TeamBytes(Struct())
    {
      TeamIsWritten(Struct(), visit);
      hide Typed, ValidSchema, TeamBytes, Encoder.EncodeFrom, Encoder.SizeFrom;
      Encoder.SizeIsLength(TEAM, Contents(), visit);
      var size := Size(visit);
      dAtA := new byte[size];
      ghost var before := dAtA[..];
      var n := MarshalToSizedBuffer(dAtA, size, visit);
      WholeBuffer(before, dAtA[..], size - n, Encoder.Marshal(TEAM, Contents(), visit));
    }
  }
}
